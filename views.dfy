/**
  The read-only handlers: `index`, `instructor_dashboard`, `course_page` and
  `student_dashboard`. Each is a function of the database and the caller's
  session, and what it returns is the response tag and the rows handed to the
  template.
 */
module Views {
  import opened Records
  import opened Store

  /**
    The targets the handlers redirect to: "/", "/login", "/instructor/dashboard",
    "/student/login", "/student/dashboard" and "/course/<course_id>".
   */
  datatype Path =
    | RootPath | LoginPath | InstructorDashboardPath
    | StudentLoginPath | StudentDashboardPath | CoursePath(courseId: nat)

  /** A rendered template and the rows passed to it. */
  datatype Page =
    | CourseList(template: string, courses: seq<Row<Course>>)
    | CourseDetail(course: Row<Course>, lectures: seq<Row<Lecture>>, assignments: seq<Row<Assignment>>)

  /**
    What a handler gives back to Flask. A plain string return is `Text` with
    status 200; `ServerError` is an exception escaping the handler, which
    Flask answers with 500.
   */
  datatype Response = Redirect(to: Path) | Text(body: string, status: nat) | Render(page: Page) | ServerError

  function Reverse<T>(s: seq<T>): (r: seq<T>)
    ensures |r| == |s| && forall k :: 0 <= k < |s| ==> r[k] == s[|s| - 1 - k]
  {
    if s == [] then [] else Reverse(s[1..]) + [s[0]]
  }

  /**
    `index`: every course, `ORDER BY id DESC`. Rows sit in the order of their
    serial ids, so the newest-first listing is the table reversed.
   */
  function Index(db: Database): (r: Response)
    ensures r.Render? && r.page.CourseList? && r.page.template == "index.html"
    ensures db.courses.Serial() ==>
      && |r.page.courses| == |db.courses.rows|
      && (forall c :: c in r.page.courses <==> c in db.courses.rows)
      && (forall i, j :: 0 <= i < j < |r.page.courses| ==> r.page.courses[i].id > r.page.courses[j].id)
  {
    var newestFirst := Reverse(db.courses.rows);
    assert forall c :: c in newestFirst <==> c in db.courses.rows by {
      var n := |db.courses.rows|;
      forall c | c in db.courses.rows ensures c in newestFirst {
        var k :| 0 <= k < n && db.courses.rows[k] == c;
        assert newestFirst[n - 1 - k] == c;
      }
    }
    Render(CourseList("index.html", newestFirst))
  }

  /** `instructor_dashboard`: the instructor gate, then every course. */
  function InstructorDashboard(db: Database, s: Session): (r: Response)
    ensures !s.instructor <==> r == Redirect(LoginPath)
    ensures s.instructor ==> r.Render? && r.page == CourseList("instructor_dashboard.html", db.courses.rows)
  {
    if !s.instructor then Redirect(LoginPath)
    else Render(CourseList("instructor_dashboard.html", db.courses.rows))
  }

  /**
    `course_page`: a missing course is reported before any login is asked
    for; then any login at all, instructor or student, enrolled or not, sees
    the course with all its lectures and assignments.
   */
  function CoursePage(db: Database, s: Session, courseId: nat): (r: Response)
    ensures r == Text("Course not found", 404) <==> !db.courses.HasId(courseId)
    ensures r == Redirect(StudentLoginPath) <==> db.courses.HasId(courseId) && s.Anonymous()
    ensures r.Render? <==> db.courses.HasId(courseId) && !s.Anonymous()
    ensures r.Render? ==>
      && r.page.CourseDetail?
      && r.page.course in db.courses.rows && r.page.course.id == courseId
      && (forall l :: l in r.page.lectures <==> l in db.lectures.rows && l.data.courseId == courseId)
      && (forall a :: a in r.page.assignments <==> a in db.assignments.rows && a.data.courseId == courseId)
  {
    match CourseById(db.courses.rows, courseId)
    case None => Text("Course not found", 404)
    case Some(course) =>
      if !s.instructor && !s.HasStudent() then Redirect(StudentLoginPath)
      else
        Render(CourseDetail(
          course,
          Select(db.lectures.rows, (l: Row<Lecture>) => l.data.courseId == courseId),
          Select(db.assignments.rows, (a: Row<Assignment>) => a.data.courseId == courseId)))
  }

  /** The course page reads no enrollment: replacing the whole table changes nothing. */
  lemma CoursePageIgnoresEnrollments(db: Database, s: Session, courseId: nat, other: Table<Enrollment>)
    ensures CoursePage(db.(enrollments := other), s, courseId) == CoursePage(db, s, courseId)
  {
  }

  /**
    The join of `student_dashboard`: for each enrollment row with this email,
    in table order, the courses whose id it references.
   */
  function EnrolledCourses(courses: seq<Row<Course>>, enrollments: seq<Row<Enrollment>>, email: string): (r: seq<Row<Course>>)
    ensures forall c :: c in r <==>
      c in courses && exists e :: e in enrollments && e.data.email == email && e.data.courseId == c.id
  {
    if enrollments == [] then []
    else
      var e := enrollments[0];
      var here := if e.data.email == email then Select(courses, (c: Row<Course>) => c.id == e.data.courseId) else [];
      var rest := EnrolledCourses(courses, enrollments[1..], email);
      assert forall x :: x in enrollments <==> x == e || x in enrollments[1..];
      here + rest
  }

  /**
    `student_dashboard`: the student gate, then the courses joined through the
    enrollments carrying the email of the session's student. A `student_id`
    with no row behind it makes the email subquery NULL, and nothing matches.
   */
  function StudentDashboard(db: Database, s: Session): (r: Response)
    ensures !s.HasStudent() <==> r == Redirect(StudentLoginPath)
    ensures s.HasStudent() ==> r.Render? && r.page.CourseList? && r.page.template == "student_dashboard.html"
    ensures s.HasStudent() && !db.students.HasId(s.studentId.value) ==> r.page.courses == []
  {
    if !s.HasStudent() then Redirect(StudentLoginPath)
    else
      var courses :=
        match StudentById(db.students.rows, s.studentId.value)
        case None => []
        case Some(student) => EnrolledCourses(db.courses.rows, db.enrollments.rows, student.data.email);
      Render(CourseList("student_dashboard.html", courses))
  }

  /**
    A logged-in student's dashboard lists exactly the courses that have an
    enrollment row with that student's email.
   */
  lemma StudentDashboardListsEnrolledCourses(db: Database, s: Session, student: Row<Student>)
    requires Constraints(db)
    requires s.HasStudent() && student in db.students.rows && student.id == s.studentId.value
    ensures forall c :: c in StudentDashboard(db, s).page.courses <==>
      c in db.courses.rows && exists e :: e in db.enrollments.rows && e.data.email == student.data.email && e.data.courseId == c.id
  {
  }
}
