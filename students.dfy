/**
 * The student directory: the record type, the seed data the mock API returns,
 * the course/search filter the list view applies, and the id numbering that
 * the add flow relies on.
 */
module Students {
  import opened Text

  /** One row of the directory. `course` is the text shown in the course selector. */
  datatype Student = Student(id: int, name: string, email: string, course: string, grade: string)

  /** The filter value that lets every course through. */
  const AllCourses: string := "All Courses"

  /** The options of the course selector; the add form offers all but the first. */
  const Courses: seq<string> := [AllCourses, "Computer Science", "Information Technology", "Electrical", "Civil"]

  /** The records the mock `fetchStudents` resolves with. */
  const MockStudentData: seq<Student> := [
    Student(1, "Atanu Ghosh", "atanughosh@gmail.com", "Computer Science", "A+"),
    Student(2, "Anik kundu", "anikkundu@gmail.com", "Information Technology", "B+"),
    Student(3, "Abhirup Bhoumik", "abhirup@gmail.com", "Civil", "A"),
    Student(4, "Raju Mondol", "rajumondol@gmail.com", "Computer Science", "B"),
    Student(5, "Jit Das", "jitdas@gmail.com", "Electrical", "A"),
    Student(6, "Ayan Roy", "ayanroy@gmail.com", "Civil", "A+")
  ]

  // ---------------------------------------------------------------------------
  // Filtering

  /** The course condition of the list filter. */
  predicate MatchesCourse(st: Student, selectedCourse: string) {
    selectedCourse == AllCourses || st.course == selectedCourse
  }

  /** The search condition: the lower-cased query occurs in the lower-cased name or email. */
  predicate MatchesSearch(st: Student, searchQuery: string) {
    Includes(Lower(st.name), Lower(searchQuery)) || Includes(Lower(st.email), Lower(searchQuery))
  }

  /** The predicate `students.filter` is given. */
  predicate Matches(st: Student, selectedCourse: string, searchQuery: string) {
    MatchesCourse(st, selectedCourse) && MatchesSearch(st, searchQuery)
  }

  /** The list view's `filteredStudents`: the records that match, in their original order. */
  function Filter(students: seq<Student>, selectedCourse: string, searchQuery: string): (r: seq<Student>)
    ensures |r| <= |students|
    ensures forall st :: st in r <==> st in students && Matches(st, selectedCourse, searchQuery)
    ensures forall st :: multiset(r)[st] == if Matches(st, selectedCourse, searchQuery) then multiset(students)[st] else 0
  {
    if students == [] then []
    else
      var rest := Filter(students[1..], selectedCourse, searchQuery);
      assert students == [students[0]] + students[1..];
      if Matches(students[0], selectedCourse, searchQuery) then [students[0]] + rest else rest
  }

  /** `a` is `b` with some elements deleted and the rest kept in order. */
  ghost predicate IsSubsequence<T>(a: seq<T>, b: seq<T>)
    decreases |b|
  {
    || a == []
    || (b != [] && ((a[0] == b[0] && IsSubsequence(a[1..], b[1..])) || IsSubsequence(a, b[1..])))
  }

  /** The filter only deletes records; it never reorders or invents them. */
  lemma {:induction false} FilterIsSubsequence(students: seq<Student>, selectedCourse: string, searchQuery: string)
    ensures IsSubsequence(Filter(students, selectedCourse, searchQuery), students)
  {
    if students != [] {
      FilterIsSubsequence(students[1..], selectedCourse, searchQuery);
      var rest := Filter(students[1..], selectedCourse, searchQuery);
      if Matches(students[0], selectedCourse, searchQuery) {
        assert ([students[0]] + rest)[1..] == rest;
      }
    }
  }

  /** Every record matches the empty query. */
  lemma EmptyQueryMatchesSearch(st: Student)
    ensures MatchesSearch(st, "")
  {
    assert Lower("") == [];
    assert [] <= Lower(st.name);
  }

  /** With every course selected and nothing typed in the search box, the list is the directory. */
  lemma {:induction false} FilterWithoutCriteria(students: seq<Student>)
    ensures Filter(students, AllCourses, "") == students
  {
    if students != [] {
      FilterWithoutCriteria(students[1..]);
      EmptyQueryMatchesSearch(students[0]);
      assert students == [students[0]] + students[1..];
    }
  }

  /** Queries that differ only in the case of their letters select the same records. */
  lemma FilterIgnoresQueryCase(students: seq<Student>, selectedCourse: string, q1: string, q2: string)
    requires |q1| == |q2|
    requires forall k | 0 <= k < |q1| :: q1[k] == q2[k] || CaseVariant(q1[k], q2[k])
    ensures Filter(students, selectedCourse, q1) == Filter(students, selectedCourse, q2)
  {
    LowerSameIff(q1, q2);
    FilterSameLowerQuery(students, selectedCourse, q1, q2);
  }

  /** Queries that lower-case to the same text select the same records. */
  lemma {:induction false} FilterSameLowerQuery(students: seq<Student>, selectedCourse: string, q1: string, q2: string)
    requires Lower(q1) == Lower(q2)
    ensures Filter(students, selectedCourse, q1) == Filter(students, selectedCourse, q2)
  {
    if students != [] {
      FilterSameLowerQuery(students[1..], selectedCourse, q1, q2);
    }
  }

  /** In particular, lower-casing the query beforehand changes nothing. */
  lemma FilterByLowerQuery(students: seq<Student>, selectedCourse: string, searchQuery: string)
    ensures Filter(students, selectedCourse, Lower(searchQuery)) == Filter(students, selectedCourse, searchQuery)
  {
    LowerIdempotent(searchQuery);
    FilterSameLowerQuery(students, selectedCourse, Lower(searchQuery), searchQuery);
  }

  /** The search condition spelled out as occurrences of the lower-cased query. */
  lemma MatchesSearchIff(st: Student, searchQuery: string)
    ensures MatchesSearch(st, searchQuery) <==>
              (exists i :: OccursAt(Lower(st.name), Lower(searchQuery), i))
              || (exists i :: OccursAt(Lower(st.email), Lower(searchQuery), i))
  {
    IncludesIff(Lower(st.name), Lower(searchQuery));
    IncludesIff(Lower(st.email), Lower(searchQuery));
  }

  // ---------------------------------------------------------------------------
  // Id numbering

  /** The record at index `i` has id `i + 1`. */
  predicate IdsSequential(students: seq<Student>) {
    forall i | 0 <= i < |students| :: students[i].id == i + 1
  }

  /** The seed data is numbered 1, 2, 3, ... */
  lemma SeedIdsSequential()
    ensures IdsSequential(MockStudentData)
  {
  }

  /** Appending a record whose id is the old length plus one keeps the numbering. */
  lemma AppendKeepsIdsSequential(students: seq<Student>, st: Student)
    requires IdsSequential(students)
    requires st.id == |students| + 1
    ensures IdsSequential(students + [st])
    ensures forall other | other in students :: other.id != st.id
  {
  }

  /** Under the numbering, ids tell records apart. */
  lemma SequentialIdsDistinct(students: seq<Student>)
    requires IdsSequential(students)
    ensures forall i, j | 0 <= i < j < |students| :: students[i].id != students[j].id
  {
  }
}
