/**
  The PostgreSQL database of the portal as values: five tables with a serial
  primary key, the constraints `init_db` declares on them, and the SQL
  statements the handlers execute, each as a function from the database before
  the statement to the database after it (commit or rollback).
 */
module Store {
  import opened Records

  /** A stored row: its `id SERIAL PRIMARY KEY` and the remaining columns. */
  datatype Row<T> = Row(id: nat, data: T)

  /**
    A table and the sequence behind its serial column. `nextId` is the value
    the next INSERT takes; a sequence starts at 1.
   */
  datatype Table<T(==)> = Table(rows: seq<Row<T>>, nextId: nat) {

    /** Ids were drawn from the sequence, in order: they increase along the rows and lie in [1, nextId). */
    predicate Serial() {
      && nextId >= 1
      && (forall i, j :: 0 <= i < j < |rows| ==> rows[i].id < rows[j].id)
      && (forall i :: 0 <= i < |rows| ==> 1 <= rows[i].id < nextId)
    }

    predicate HasId(id: nat) {
      exists r :: r in rows && r.id == id
    }

    /** An INSERT that succeeds: the row takes the next sequence value. */
    function Insert(data: T): (t: Table<T>)
      ensures Serial() ==> t.Serial() && !HasId(nextId)
      ensures |t.rows| == |rows| + 1 && t.rows[..|rows|] == rows && t.rows[|rows|] == Row(nextId, data)
      ensures t.HasId(nextId) && t.nextId == nextId + 1
    {
      var t := Table(rows + [Row(nextId, data)], nextId + 1);
      assert t.rows[|rows|].id == nextId;
      assert forall i :: 0 <= i < |rows| ==> t.rows[i] == rows[i];
      t
    }

    /**
      An INSERT that is rolled back: `nextval` is not transactional, so the
      sequence value it drew stays used.
     */
    function Burn(): (t: Table<T>)
      ensures t.rows == rows && t.nextId > nextId
      ensures Serial() ==> t.Serial()
    {
      this.(nextId := nextId + 1)
    }
  }

  /** An empty table whose sequence starts at 1: CREATE TABLE, or TRUNCATE ... RESTART IDENTITY. */
  function EmptyTable<T(==)>(): (t: Table<T>)
    ensures t.Serial() && t.rows == [] && t.nextId == 1
  {
    Table([], 1)
  }

  datatype Database = Database(
    courses: Table<Course>,
    students: Table<Student>,
    enrollments: Table<Enrollment>,
    lectures: Table<Lecture>,
    assignments: Table<Assignment>)

  /** What `init_db` leaves on a server whose database has none of the tables yet. */
  function Fresh(): (db: Database)
    ensures Constraints(db)
    ensures db.courses.rows == [] && db.students.rows == [] && db.enrollments.rows == []
    ensures db.lectures.rows == [] && db.assignments.rows == []
    ensures db.courses.nextId == 1 && db.students.nextId == 1 && db.enrollments.nextId == 1
    ensures db.lectures.nextId == 1 && db.assignments.nextId == 1
  {
    Database(EmptyTable(), EmptyTable(), EmptyTable(), EmptyTable(), EmptyTable())
  }

  /** `email TEXT UNIQUE` on `students`. */
  predicate UniqueEmails(rows: seq<Row<Student>>) {
    forall i, j :: 0 <= i < j < |rows| ==> rows[i].data.email != rows[j].data.email
  }

  /** `course_id INTEGER REFERENCES courses(id)` on `enrollments`, `lectures` and `assignments`. */
  predicate ForeignKeys(db: Database) {
    && (forall e :: e in db.enrollments.rows ==> db.courses.HasId(e.data.courseId))
    && (forall l :: l in db.lectures.rows ==> db.courses.HasId(l.data.courseId))
    && (forall a :: a in db.assignments.rows ==> db.courses.HasId(a.data.courseId))
  }

  /** Every constraint `init_db` declares. */
  predicate Constraints(db: Database) {
    && db.courses.Serial() && db.students.Serial() && db.enrollments.Serial()
    && db.lectures.Serial() && db.assignments.Serial()
    && UniqueEmails(db.students.rows)
    && ForeignKeys(db)
  }

  /**
    The rule `enroll` keeps by checking before it inserts; the table itself
    has no constraint that enforces it.
   */
  predicate OneEnrollmentPerPair(rows: seq<Row<Enrollment>>) {
    forall i, j :: 0 <= i < j < |rows| ==>
      !(rows[i].data.email == rows[j].data.email && rows[i].data.courseId == rows[j].data.courseId)
  }

  /** A serial column is a key: two rows with the same id are the same row. */
  lemma SerialIdIsKey<T>(t: Table<T>, x: Row<T>, y: Row<T>)
    requires t.Serial() && x in t.rows && y in t.rows && x.id == y.id
    ensures x == y
  {
  }

  /** The UNIQUE email column is a key of `students`. */
  lemma EmailIsKey(rows: seq<Row<Student>>, x: Row<Student>, y: Row<Student>)
    requires UniqueEmails(rows) && x in rows && y in rows && x.data.email == y.data.email
    ensures x == y
  {
  }

  // ---------------------------------------------------------------- queries

  /** SELECT ... WHERE p: the rows satisfying `p`, in table order. */
  function Select<T(!new)>(rows: seq<Row<T>>, p: Row<T> -> bool): (r: seq<Row<T>>)
    ensures forall x :: x in r <==> x in rows && p(x)
    ensures |r| <= |rows|
  {
    if rows == [] then []
    else (if p(rows[0]) then [rows[0]] else []) + Select(rows[1..], p)
  }

  /** SELECT ... WHERE p followed by `fetchone()`: the first row satisfying `p`, if any. */
  function FindFirst<T(!new)>(rows: seq<Row<T>>, p: Row<T> -> bool): (r: Option<Row<T>>)
    ensures r.Some? ==> r.value in rows && p(r.value)
    ensures r.None? <==> forall x :: x in rows ==> !p(x)
  {
    if rows == [] then None
    else if p(rows[0]) then Some(rows[0])
    else FindFirst(rows[1..], p)
  }

  /** `SELECT ... FROM students WHERE id=%s`, fetched with `fetchone()`. */
  function StudentById(students: seq<Row<Student>>, id: nat): (r: Option<Row<Student>>)
    ensures r.None? <==> forall s :: s in students ==> s.id != id
    ensures r.Some? ==> r.value in students && r.value.id == id
  {
    FindFirst(students, (s: Row<Student>) => s.id == id)
  }

  /** `SELECT * FROM students WHERE email=%s`, fetched with `fetchone()`. */
  function StudentByEmail(students: seq<Row<Student>>, email: string): (r: Option<Row<Student>>)
    ensures r.None? <==> !EmailTaken(students, email)
    ensures r.Some? ==> r.value in students && r.value.data.email == email
  {
    FindFirst(students, (s: Row<Student>) => s.data.email == email)
  }

  /** `SELECT * FROM courses WHERE id=%s`, fetched with `fetchone()`. */
  function CourseById(courses: seq<Row<Course>>, id: nat): (r: Option<Row<Course>>)
    ensures r.None? <==> forall c :: c in courses ==> c.id != id
    ensures r.Some? ==> r.value in courses && r.value.id == id
  {
    FindFirst(courses, (c: Row<Course>) => c.id == id)
  }

  predicate EmailTaken(students: seq<Row<Student>>, email: string) {
    exists s :: s in students && s.data.email == email
  }

  /** `SELECT 1 FROM enrollments WHERE email=%s AND course_id=%s` returns a row. */
  predicate Enrolled(rows: seq<Row<Enrollment>>, email: string, courseId: nat)
    ensures Enrolled(rows, email, courseId) <==>
      Select(rows, (e: Row<Enrollment>) => e.data.email == email && e.data.courseId == courseId) != []
  {
    var hits := Select(rows, (e: Row<Enrollment>) => e.data.email == email && e.data.courseId == courseId);
    assert hits != [] ==> hits[0] in hits;
    exists e :: e in rows && e.data.email == email && e.data.courseId == courseId
  }

  /** How many rows of `enrollments` carry this email and course. */
  function CountEnrollments(rows: seq<Row<Enrollment>>, email: string, courseId: nat): nat {
    if rows == [] then 0
    else (if rows[0].data.email == email && rows[0].data.courseId == courseId then 1 else 0)
         + CountEnrollments(rows[1..], email, courseId)
  }

  lemma {:induction false} CountPositiveIffEnrolled(rows: seq<Row<Enrollment>>, email: string, courseId: nat)
    ensures CountEnrollments(rows, email, courseId) > 0 <==> Enrolled(rows, email, courseId)
  {
    if rows != [] {
      CountPositiveIffEnrolled(rows[1..], email, courseId);
      assert forall e :: e in rows <==> e == rows[0] || e in rows[1..];
    }
  }

  lemma {:induction false} CountAppend(rows: seq<Row<Enrollment>>, row: Row<Enrollment>, email: string, courseId: nat)
    ensures CountEnrollments(rows + [row], email, courseId)
         == CountEnrollments(rows, email, courseId) + (if row.data.email == email && row.data.courseId == courseId then 1 else 0)
  {
    if rows == [] {
      assert rows + [row] == [row];
    } else {
      assert (rows + [row])[1..] == rows[1..] + [row];
      CountAppend(rows[1..], row, email, courseId);
    }
  }

  /** Where each (email, course) pair occurs at most once, it is counted at most once. */
  lemma {:induction false} CountAtMostOne(rows: seq<Row<Enrollment>>, email: string, courseId: nat)
    requires OneEnrollmentPerPair(rows)
    ensures CountEnrollments(rows, email, courseId) <= 1
  {
    if rows != [] {
      assert OneEnrollmentPerPair(rows[1..]) by {
        forall i, j | 0 <= i < j < |rows[1..]|
          ensures !(rows[1..][i].data.email == rows[1..][j].data.email && rows[1..][i].data.courseId == rows[1..][j].data.courseId)
        {
          assert rows[1..][i] == rows[i + 1] && rows[1..][j] == rows[j + 1];
        }
      }
      CountAtMostOne(rows[1..], email, courseId);
      if rows[0].data.email == email && rows[0].data.courseId == courseId {
        CountPositiveIffEnrolled(rows[1..], email, courseId);
      }
    }
  }

  /** Appending a row whose (email, course) pair is not yet present keeps the pairs unique. */
  lemma AppendKeepsOnePerPair(rows: seq<Row<Enrollment>>, row: Row<Enrollment>)
    requires OneEnrollmentPerPair(rows) && !Enrolled(rows, row.data.email, row.data.courseId)
    ensures OneEnrollmentPerPair(rows + [row])
  {
  }

  /** Keeping some rows of a serial table keeps their ids increasing. */
  lemma {:induction false} SelectSerial<T(!new)>(t: Table<T>, p: Row<T> -> bool)
    requires t.Serial()
    ensures Table(Select(t.rows, p), t.nextId).Serial()
    decreases |t.rows|
  {
    if t.rows != [] {
      var tail := Table(t.rows[1..], t.nextId);
      TailSerial(t);
      SelectSerial(tail, p);
      var rest := Select(tail.rows, p);
      if p(t.rows[0]) {
        assert Select(t.rows, p) == [t.rows[0]] + rest;
        HeadBelowSelected(t, p);
        ConsSerial(t.rows[0], rest, t.nextId);
      } else {
        assert Select(t.rows, p) == rest;
      }
    }
  }

  lemma TailSerial<T>(t: Table<T>)
    requires t.Serial() && t.rows != []
    ensures Table(t.rows[1..], t.nextId).Serial()
  {
    var tail := t.rows[1..];
    forall i, j | 0 <= i < j < |tail| ensures tail[i].id < tail[j].id {
      assert tail[i] == t.rows[i + 1] && tail[j] == t.rows[j + 1];
    }
    forall i | 0 <= i < |tail| ensures 1 <= tail[i].id < t.nextId {
      assert tail[i] == t.rows[i + 1];
    }
  }

  /** Every row selected from the tail has a larger id than the head row. */
  lemma HeadBelowSelected<T(!new)>(t: Table<T>, p: Row<T> -> bool)
    requires t.Serial() && t.rows != []
    ensures forall x :: x in Select(t.rows[1..], p) ==> t.rows[0].id < x.id
  {
    forall x | x in Select(t.rows[1..], p) ensures t.rows[0].id < x.id {
      var m :| 0 <= m < |t.rows[1..]| && t.rows[1..][m] == x;
      assert t.rows[m + 1] == x;
    }
  }

  lemma ConsSerial<T>(head: Row<T>, rest: seq<Row<T>>, nextId: nat)
    requires Table(rest, nextId).Serial() && 1 <= head.id < nextId
    requires forall x :: x in rest ==> head.id < x.id
    ensures Table([head] + rest, nextId).Serial()
  {
    var all := [head] + rest;
    forall i, j | 0 <= i < j < |all| ensures all[i].id < all[j].id {
      assert all[j] == rest[j - 1];
      if i > 0 {
        assert all[i] == rest[i - 1];
      } else {
        assert rest[j - 1] in rest;
      }
    }
  }

  // ------------------------------------------------------------- statements

  datatype Violation = UniqueViolation | ForeignKeyViolation

  /**
    The outcome of one statement and its commit. A violated constraint raises
    in the handler and rolls the transaction back; `db` is then the database
    as the rollback leaves it.
   */
  datatype Write = Committed(db: Database) | RolledBack(db: Database, violation: Violation)

  /** `INSERT INTO courses`: the table has no constraint beyond its key. */
  function InsertCourse(db: Database, c: Course): (db': Database)
    ensures Constraints(db) ==> Constraints(db')
    ensures db'.courses.rows == db.courses.rows + [Row(db.courses.nextId, c)]
    ensures db'.students == db.students && db'.enrollments == db.enrollments
    ensures db'.lectures == db.lectures && db'.assignments == db.assignments
  {
    db.(courses := db.courses.Insert(c))
  }

  /** `INSERT INTO students`: rejected by the UNIQUE email column when the email is taken. */
  function InsertStudent(db: Database, s: Student): (w: Write)
    ensures w.RolledBack? <==> EmailTaken(db.students.rows, s.email)
    ensures w.RolledBack? ==> w.violation == UniqueViolation && w.db.students.rows == db.students.rows
    ensures w.Committed? ==> w.db.students.rows == db.students.rows + [Row(db.students.nextId, s)]
    ensures w.db.courses == db.courses && w.db.enrollments == db.enrollments
    ensures w.db.lectures == db.lectures && w.db.assignments == db.assignments
    ensures Constraints(db) ==> Constraints(w.db)
  {
    if EmailTaken(db.students.rows, s.email) then
      RolledBack(db.(students := db.students.Burn()), UniqueViolation)
    else
      Committed(db.(students := db.students.Insert(s)))
  }

  /** `INSERT INTO enrollments`: rejected by the foreign key when the course does not exist. */
  function InsertEnrollment(db: Database, e: Enrollment): (w: Write)
    ensures w.RolledBack? <==> !db.courses.HasId(e.courseId)
    ensures w.RolledBack? ==> w.violation == ForeignKeyViolation && w.db.enrollments.rows == db.enrollments.rows
    ensures w.Committed? ==> w.db.enrollments.rows == db.enrollments.rows + [Row(db.enrollments.nextId, e)]
    ensures w.db.courses == db.courses && w.db.students == db.students
    ensures w.db.lectures == db.lectures && w.db.assignments == db.assignments
    ensures Constraints(db) ==> Constraints(w.db)
  {
    if !db.courses.HasId(e.courseId) then
      RolledBack(db.(enrollments := db.enrollments.Burn()), ForeignKeyViolation)
    else
      Committed(db.(enrollments := db.enrollments.Insert(e)))
  }

  /** `INSERT INTO lectures`: rejected by the foreign key when the course does not exist. */
  function InsertLecture(db: Database, l: Lecture): (w: Write)
    ensures w.RolledBack? <==> !db.courses.HasId(l.courseId)
    ensures w.RolledBack? ==> w.violation == ForeignKeyViolation && w.db.lectures.rows == db.lectures.rows
    ensures w.Committed? ==> w.db.lectures.rows == db.lectures.rows + [Row(db.lectures.nextId, l)]
    ensures w.db.courses == db.courses && w.db.students == db.students
    ensures w.db.enrollments == db.enrollments && w.db.assignments == db.assignments
    ensures Constraints(db) ==> Constraints(w.db)
  {
    if !db.courses.HasId(l.courseId) then
      RolledBack(db.(lectures := db.lectures.Burn()), ForeignKeyViolation)
    else
      Committed(db.(lectures := db.lectures.Insert(l)))
  }

  /** `INSERT INTO assignments`: rejected by the foreign key when the course does not exist. */
  function InsertAssignment(db: Database, a: Assignment): (w: Write)
    ensures w.RolledBack? <==> !db.courses.HasId(a.courseId)
    ensures w.RolledBack? ==> w.violation == ForeignKeyViolation && w.db.assignments.rows == db.assignments.rows
    ensures w.Committed? ==> w.db.assignments.rows == db.assignments.rows + [Row(db.assignments.nextId, a)]
    ensures w.db.courses == db.courses && w.db.students == db.students
    ensures w.db.enrollments == db.enrollments && w.db.lectures == db.lectures
    ensures Constraints(db) ==> Constraints(w.db)
  {
    if !db.courses.HasId(a.courseId) then
      RolledBack(db.(assignments := db.assignments.Burn()), ForeignKeyViolation)
    else
      Committed(db.(assignments := db.assignments.Insert(a)))
  }

  /** Some enrollment, lecture or assignment still refers to the course. */
  predicate Referenced(db: Database, courseId: nat)
    ensures Referenced(db, courseId) <==>
      || Select(db.enrollments.rows, (e: Row<Enrollment>) => e.data.courseId == courseId) != []
      || Select(db.lectures.rows, (l: Row<Lecture>) => l.data.courseId == courseId) != []
      || Select(db.assignments.rows, (a: Row<Assignment>) => a.data.courseId == courseId) != []
  {
    var es := Select(db.enrollments.rows, (e: Row<Enrollment>) => e.data.courseId == courseId);
    var ls := Select(db.lectures.rows, (l: Row<Lecture>) => l.data.courseId == courseId);
    var as_ := Select(db.assignments.rows, (a: Row<Assignment>) => a.data.courseId == courseId);
    assert es != [] ==> es[0] in es;
    assert ls != [] ==> ls[0] in ls;
    assert as_ != [] ==> as_[0] in as_;
    || (exists e :: e in db.enrollments.rows && e.data.courseId == courseId)
    || (exists l :: l in db.lectures.rows && l.data.courseId == courseId)
    || (exists a :: a in db.assignments.rows && a.data.courseId == courseId)
  }

  /**
    `DELETE FROM courses WHERE id=%s`. The foreign keys have no ON DELETE
    clause, so PostgreSQL's NO ACTION rejects the delete while dependents exist.
   */
  function DeleteCourse(db: Database, courseId: nat): (w: Write)
    ensures w.RolledBack? <==> Referenced(db, courseId)
    ensures w.RolledBack? ==> w.violation == ForeignKeyViolation && w.db == db
    ensures w.Committed? ==> !w.db.courses.HasId(courseId)
    ensures forall c :: c in w.db.courses.rows <==> c in db.courses.rows && (w.RolledBack? || c.id != courseId)
    ensures w.db.courses.nextId == db.courses.nextId
    ensures w.db.students == db.students && w.db.enrollments == db.enrollments
    ensures w.db.lectures == db.lectures && w.db.assignments == db.assignments
    ensures Constraints(db) ==> Constraints(w.db)
  {
    if Referenced(db, courseId) then
      RolledBack(db, ForeignKeyViolation)
    else
      var kept := Table(Select(db.courses.rows, (c: Row<Course>) => c.id != courseId), db.courses.nextId);
      var db' := db.(courses := kept);
      assert Constraints(db) ==> Constraints(db') by {
        if Constraints(db) {
          SelectSerial(db.courses, (c: Row<Course>) => c.id != courseId);
          KeptCoursesCoverReferences(db, kept, courseId);
        }
      }
      assert forall i :: 0 <= i < |kept.rows| ==> kept.rows[i] in kept.rows;
      Committed(db')
  }

  /** The courses left after the delete still cover every reference the delete allowed. */
  lemma KeptCoursesCoverReferences(db: Database, kept: Table<Course>, courseId: nat)
    requires ForeignKeys(db) && !Referenced(db, courseId)
    requires forall c :: c in kept.rows <==> c in db.courses.rows && c.id != courseId
    ensures ForeignKeys(db.(courses := kept))
  {
  }

  /**
    `TRUNCATE enrollments, students RESTART IDENTITY CASCADE`. No other table
    refers to these two, so CASCADE removes nothing more.
   */
  function TruncateStudents(db: Database): (db': Database)
    ensures db'.students.rows == [] && db'.enrollments.rows == []
    ensures db'.students.nextId == 1 && db'.enrollments.nextId == 1
    ensures db'.courses == db.courses && db'.lectures == db.lectures && db'.assignments == db.assignments
    ensures Constraints(db) ==> Constraints(db')
  {
    db.(students := EmptyTable(), enrollments := EmptyTable())
  }
}
