/**
  The server as one object: the database, the session of the client making
  the requests, and a log of the emails handed to the mail service. Each
  state-changing route handler is a method; its guards decide the response
  and which tables and session keys it writes.
 */
module Portal {
  import opened Records
  import opened Store
  import opened Views

  const EnrollmentSubject: string := "Enrollment Confirmed"
  const EnrollmentBody: string := "You are now enrolled in the course."

  /** `SELECT email, name FROM students WHERE id=%s` for the session's `student_id`, fetched with `fetchone()`. */
  function SessionStudent(db: Database, s: Session): (r: Option<Row<Student>>)
    requires s.HasStudent()
    ensures r.None? <==> !db.students.HasId(s.studentId.value)
    ensures r.Some? ==> r.value in db.students.rows && r.value.id == s.studentId.value
  {
    StudentById(db.students.rows, s.studentId.value)
  }

  class Portal {
    const config: Config
    var db: Database
    var session: Session
    /** Every call of `send_email`; delivery itself is best effort and not modelled. */
    ghost var mailLog: seq<Mail>

    /**
      The database constraints, and the one-row-per-(email, course) rule that
      only the check in `enroll` keeps.
     */
    ghost predicate Valid()
      reads this
    {
      Constraints(db) && OneEnrollmentPerPair(db.enrollments.rows)
    }

    constructor(config: Config)
      ensures Valid()
      ensures this.config == config && db == Fresh() && session == NoSession && mailLog == []
    {
      this.config := config;
      db := Fresh();
      session := NoSession;
      mailLog := [];
    }

    /** `login` (POST): the configured username and a password matching the configured hash. */
    method Login(username: string, password: string) returns (r: Response)
      requires Valid()
      modifies this
      ensures Valid() && db == old(db) && mailLog == old(mailLog)
      ensures var ok := username == config.instructorUsername
                        && config.checkPasswordHash(config.instructorPasswordHash, password);
        && (ok ==> r == Redirect(InstructorDashboardPath) && session == old(session).(instructor := true))
        && (!ok ==> r == Text("Invalid credentials", 401) && session == old(session))
    {
      if username == config.instructorUsername && config.checkPasswordHash(config.instructorPasswordHash, password) {
        session := session.(instructor := true);
        r := Redirect(InstructorDashboardPath);
      } else {
        r := Text("Invalid credentials", 401);
      }
    }

    /** `instructor_logout`: drops the "instructor" key and nothing else. */
    method InstructorLogout() returns (r: Response)
      requires Valid()
      modifies this
      ensures Valid() && db == old(db) && mailLog == old(mailLog)
      ensures r == Redirect(RootPath) && session == old(session).(instructor := false)
    {
      session := session.(instructor := false);
      r := Redirect(RootPath);
    }

    /** `add_course` (POST): behind the instructor gate, one new course row. */
    method AddCourse(title: string, instructor: string, description: string, submissionUrl: string) returns (r: Response)
      requires Valid()
      modifies this
      ensures Valid() && session == old(session) && mailLog == old(mailLog)
      ensures !session.instructor ==> r == Redirect(LoginPath) && db == old(db)
      ensures session.instructor ==>
        && r == Redirect(InstructorDashboardPath)
        && db == InsertCourse(old(db), Course(title, instructor, description, submissionUrl))
    {
      if !session.instructor {
        return Redirect(LoginPath);
      }
      db := InsertCourse(db, Course(title, instructor, description, submissionUrl));
      r := Redirect(InstructorDashboardPath);
    }

    /**
      `add_lecture` (POST): behind the instructor gate, the upload is saved
      under its sanitised name and then a lecture row inserted. An empty
      sanitised name makes the save target the upload directory itself, which
      raises before any insert; a missing course fails the insert.
     */
    method AddLecture(courseId: nat, title: string, uploadName: string) returns (r: Response)
      requires Valid()
      modifies this
      ensures Valid() && session == old(session) && mailLog == old(mailLog)
      ensures !session.instructor ==> r == Redirect(LoginPath) && db == old(db)
      ensures session.instructor && config.secureFilename(uploadName) == "" ==> r == ServerError && db == old(db)
      ensures session.instructor && config.secureFilename(uploadName) != "" ==>
        var w := InsertLecture(old(db), Lecture(title, config.secureFilename(uploadName), courseId));
        && db == w.db
        && (w.Committed? ==> r == Redirect(CoursePath(courseId)))
        && (w.RolledBack? ==> r == ServerError)
    {
      if !session.instructor {
        return Redirect(LoginPath);
      }
      var filename := config.secureFilename(uploadName);
      if filename == "" {
        // file.save on the directory path raises IsADirectoryError.
        return ServerError;
      }
      var w := InsertLecture(db, Lecture(title, filename, courseId));
      db := w.db;
      r := if w.Committed? then Redirect(CoursePath(courseId)) else ServerError;
    }

    /** `add_assignment` (POST): as `add_lecture`, with a due date, saving into the assignment directory. */
    method AddAssignment(courseId: nat, title: string, dueDate: string, uploadName: string) returns (r: Response)
      requires Valid()
      modifies this
      ensures Valid() && session == old(session) && mailLog == old(mailLog)
      ensures !session.instructor ==> r == Redirect(LoginPath) && db == old(db)
      ensures session.instructor && config.secureFilename(uploadName) == "" ==> r == ServerError && db == old(db)
      ensures session.instructor && config.secureFilename(uploadName) != "" ==>
        var w := InsertAssignment(old(db), Assignment(title, config.secureFilename(uploadName), dueDate, courseId));
        && db == w.db
        && (w.Committed? ==> r == Redirect(CoursePath(courseId)))
        && (w.RolledBack? ==> r == ServerError)
    {
      if !session.instructor {
        return Redirect(LoginPath);
      }
      var filename := config.secureFilename(uploadName);
      if filename == "" {
        // file.save on the directory path raises IsADirectoryError.
        return ServerError;
      }
      var w := InsertAssignment(db, Assignment(title, filename, dueDate, courseId));
      db := w.db;
      r := if w.Committed? then Redirect(CoursePath(courseId)) else ServerError;
    }

    /**
      `delete_course` (POST): behind the instructor gate. Deleting a course
      that does not exist deletes nothing and still redirects; one that is
      still referenced fails.
     */
    method DeleteCourse(courseId: nat) returns (r: Response)
      requires Valid()
      modifies this
      ensures Valid() && session == old(session) && mailLog == old(mailLog)
      ensures !session.instructor ==> r == Redirect(LoginPath) && db == old(db)
      ensures session.instructor ==>
        var w := Store.DeleteCourse(old(db), courseId);
        && db == w.db
        && (w.Committed? ==> r == Redirect(InstructorDashboardPath))
        && (w.RolledBack? ==> r == ServerError)
    {
      if !session.instructor {
        return Redirect(LoginPath);
      }
      var w := Store.DeleteCourse(db, courseId);
      db := w.db;
      r := if w.Committed? then Redirect(InstructorDashboardPath) else ServerError;
    }

    /**
      `student_register` (POST): a taken email is refused by the UNIQUE column
      and nothing but the sequence moves; otherwise the new student is stored
      and becomes the session's student.
     */
    method StudentRegister(name: string, email: string, password: string) returns (r: Response)
      requires Valid()
      modifies this
      ensures Valid() && mailLog == old(mailLog)
      ensures var w := InsertStudent(old(db), Student(name, email, config.generatePasswordHash(password)));
        && db == w.db
        && (w.RolledBack? ==> r == Text("Email already registered", 200) && session == old(session))
        && (w.Committed? ==>
              && r == Redirect(StudentDashboardPath)
              && session == old(session).(studentId := Some(old(db).students.nextId), studentName := Some(name)))
    {
      var student := Student(name, email, config.generatePasswordHash(password));
      ghost var newRow := Row(db.students.nextId, student);
      var w := InsertStudent(db, student);
      db := w.db;
      if w.RolledBack? {
        return Text("Email already registered", 200);
      }
      // SELECT id, name FROM students WHERE email=%s: the row just inserted.
      assert newRow in db.students.rows by {
        assert db.students.rows[|db.students.rows| - 1] == newRow;
      }
      var found := StudentByEmail(db.students.rows, email);
      assert found == Some(newRow) by {
        assert UniqueEmails(db.students.rows);
        EmailIsKey(db.students.rows, found.value, newRow);
      }
      session := session.(studentId := Some(found.value.id), studentName := Some(found.value.data.name));
      r := Redirect(StudentDashboardPath);
    }

    /**
      `student_login` (POST): the student row with this email, if its stored
      hash accepts the password, becomes the session's student.
     */
    method StudentLogin(email: string, password: string) returns (r: Response)
      requires Valid()
      modifies this
      ensures Valid() && db == old(db) && mailLog == old(mailLog)
      ensures (exists st :: st in db.students.rows && st.data.email == email
                && config.checkPasswordHash(st.data.passwordHash, password)) <==> r == Redirect(StudentDashboardPath)
      ensures r == Redirect(StudentDashboardPath) ==>
        exists st :: st in db.students.rows && st.data.email == email
          && session == old(session).(studentId := Some(st.id), studentName := Some(st.data.name))
      ensures r != Redirect(StudentDashboardPath) ==> r == Text("Invalid login", 200) && session == old(session)
    {
      var found := StudentByEmail(db.students.rows, email);
      if found.Some? && config.checkPasswordHash(found.value.data.passwordHash, password) {
        session := session.(studentId := Some(found.value.id), studentName := Some(found.value.data.name));
        r := Redirect(StudentDashboardPath);
      } else {
        r := Text("Invalid login", 200);
        forall st | st in db.students.rows && st.data.email == email
          ensures !config.checkPasswordHash(st.data.passwordHash, password)
        {
          EmailIsKey(db.students.rows, found.value, st);
        }
      }
    }

    /** `student_logout`: drops "student_id" and "student_name" and nothing else. */
    method StudentLogout() returns (r: Response)
      requires Valid()
      modifies this
      ensures Valid() && db == old(db) && mailLog == old(mailLog)
      ensures r == Redirect(RootPath) && session == old(session).(studentId := None, studentName := None)
    {
      session := session.(studentId := None, studentName := None);
      r := Redirect(RootPath);
    }

    /**
      `enroll`: behind the student gate, the session's student row is read
      without a check (a stale id raises, answered with 500); an existing row
      for the student's email and the course makes the call a no-op; otherwise
      one row is inserted and one confirmation email sent.
     */
    method Enroll(courseId: nat) returns (r: Response)
      requires Valid()
      modifies this
      ensures Valid() && session == old(session)
      ensures !session.HasStudent() ==> r == Redirect(StudentLoginPath) && db == old(db) && mailLog == old(mailLog)
      ensures session.HasStudent() && SessionStudent(old(db), session).None? ==>
        r == ServerError && db == old(db) && mailLog == old(mailLog)
      ensures session.HasStudent() && SessionStudent(old(db), session).Some? ==>
        var st := SessionStudent(old(db), session).value;
        var row := Enrollment(st.data.name, st.data.email, courseId);
        && (Enrolled(old(db).enrollments.rows, st.data.email, courseId) ==>
              r == Redirect(CoursePath(courseId)) && db == old(db) && mailLog == old(mailLog))
        && (!Enrolled(old(db).enrollments.rows, st.data.email, courseId) ==>
              && db == InsertEnrollment(old(db), row).db
              && (old(db).courses.HasId(courseId) ==>
                    r == Redirect(CoursePath(courseId))
                    && mailLog == old(mailLog) + [Mail(st.data.email, EnrollmentSubject, EnrollmentBody)])
              && (!old(db).courses.HasId(courseId) ==> r == ServerError && mailLog == old(mailLog)))
        && (old(db).courses.HasId(courseId) ==> CountEnrollments(db.enrollments.rows, st.data.email, courseId) == 1)
    {
      if !session.HasStudent() {
        return Redirect(StudentLoginPath);
      }
      var found := SessionStudent(db, session);
      if found.None? {
        // `student["email"]` on None raises TypeError.
        return ServerError;
      }
      var student := found.value;
      var rows := db.enrollments.rows;
      if Enrolled(rows, student.data.email, courseId) {
        CountPositiveIffEnrolled(rows, student.data.email, courseId);
        CountAtMostOne(rows, student.data.email, courseId);
        return Redirect(CoursePath(courseId));
      }
      var row := Enrollment(student.data.name, student.data.email, courseId);
      var w := InsertEnrollment(db, row);
      db := w.db;
      if w.RolledBack? {
        return ServerError;
      }
      CountPositiveIffEnrolled(rows, student.data.email, courseId);
      CountAppend(rows, Row(w.db.enrollments.rows[|rows|].id, row), student.data.email, courseId);
      AppendKeepsOnePerPair(rows, Row(w.db.enrollments.rows[|rows|].id, row));
      mailLog := mailLog + [Mail(student.data.email, EnrollmentSubject, EnrollmentBody)];
      r := Redirect(CoursePath(courseId));
    }

    /**
      `clear_students` (POST): behind the instructor gate, answered with 403
      rather than a redirect, empties `students` and `enrollments` and restarts
      their sequences. The session keeps whatever `student_id` it held.
     */
    method ClearStudents() returns (r: Response)
      requires Valid()
      modifies this
      ensures Valid() && session == old(session) && mailLog == old(mailLog)
      ensures !session.instructor ==> r == Text("Unauthorized", 403) && db == old(db)
      ensures session.instructor ==> r == Text("All student data cleared", 200) && db == TruncateStudents(old(db))
    {
      if !session.instructor {
        return Text("Unauthorized", 403);
      }
      db := TruncateStudents(db);
      r := Text("All student data cleared", 200);
    }
  }

  /**
    Two `enroll` requests in a row from a logged-in student for an existing
    course: `between`, the database after the first, is what one enroll
    makes of the starting database, and the second changes nothing; one
    matching row remains, and the
    confirmation email went out at most once, exactly when the student was
    not enrolled before.
   */
  method EnrollTwice(p: Portal, courseId: nat) returns (first: Response, second: Response, ghost between: Database)
    requires p.Valid() && p.session.HasStudent() && SessionStudent(p.db, p.session).Some?
    requires p.db.courses.HasId(courseId)
    modifies p
    ensures p.Valid()
    ensures first == Redirect(CoursePath(courseId)) && second == Redirect(CoursePath(courseId))
    ensures p.session == old(p.session)
    ensures var st := SessionStudent(old(p.db), old(p.session)).value;
      between == (if Enrolled(old(p.db).enrollments.rows, st.data.email, courseId) then old(p.db)
                  else InsertEnrollment(old(p.db), Enrollment(st.data.name, st.data.email, courseId)).db)
    ensures p.db == between
    ensures var st := SessionStudent(old(p.db), old(p.session)).value;
      && CountEnrollments(p.db.enrollments.rows, st.data.email, courseId) == 1
      && (Enrolled(old(p.db).enrollments.rows, st.data.email, courseId) ==> p.mailLog == old(p.mailLog))
      && (!Enrolled(old(p.db).enrollments.rows, st.data.email, courseId) ==>
            p.mailLog == old(p.mailLog) + [Mail(st.data.email, EnrollmentSubject, EnrollmentBody)])
  {
    first := p.Enroll(courseId);
    between := p.db;
    CountPositiveIffEnrolled(p.db.enrollments.rows, SessionStudent(p.db, p.session).value.data.email, courseId);
    second := p.Enroll(courseId);
  }

  /**
    Two registrations with the same email: the second is refused, and exactly
    one student row carries that email.
   */
  method RegisterTwice(p: Portal, name: string, email: string, password: string, otherName: string, otherPassword: string)
    returns (first: Response, second: Response)
    requires p.Valid()
    modifies p
    ensures p.Valid()
    ensures second == Text("Email already registered", 200)
    ensures first == Redirect(StudentDashboardPath) <==> !EmailTaken(old(p.db).students.rows, email)
    ensures EmailTaken(p.db.students.rows, email)
    ensures forall x, y :: x in p.db.students.rows && y in p.db.students.rows && x.data.email == email && y.data.email == email ==> x == y
  {
    first := p.StudentRegister(name, email, password);
    assert EmailTaken(p.db.students.rows, email) by {
      if first == Redirect(StudentDashboardPath) {
        assert p.db.students.rows[|p.db.students.rows| - 1].data.email == email;
      }
    }
    second := p.StudentRegister(otherName, email, otherPassword);
    forall x, y | x in p.db.students.rows && y in p.db.students.rows && x.data.email == email && y.data.email == email
      ensures x == y
    {
      EmailIsKey(p.db.students.rows, x, y);
    }
  }

  /**
    `TRUNCATE ... RESTART IDENTITY` hands out id 1 again, and the session is
    not cleared: a browser still holding the old `student_id` 1 is, after the
    next registration, served as the newly registered student.
   */
  lemma StaleSessionResolvesToNewStudent(db: Database, s: Session, newcomer: Student)
    requires s.studentId == Some(1)
    ensures SessionStudent(InsertStudent(TruncateStudents(db), newcomer).db, s) == Some(Row(1, newcomer))
  {
  }
}
