# Course portal: access control and enrollment

A model of the Flask course portal in `app.py`. It covers the
access-control and enrollment state machine: the instructor gate, the
student-login gate, the course page, registration and login, enrollment, and
the instructor's administrative actions. It also covers the PostgreSQL tables
those handlers read and write.

- `records.dfy` (module `Records`): the columns of each table, the Flask
  session dictionary (`instructor`, `student_id`, `student_name`), the emails
  handed to `send_email`, and the start-up configuration. The configuration
  carries the instructor credentials and three library functions the model
  does not look inside: `check_password_hash`, `generate_password_hash` and
  `secure_filename`.
- `store.dfy` (module `Store`): the five tables of `init_db`, each with its
  `SERIAL` sequence. Its constraints are the primary keys, `email UNIQUE`,
  and the three `REFERENCES courses(id)` keys with no ON DELETE clause. Every
  SQL statement a handler executes is a function from the database before to
  the database after its commit or rollback. A failed INSERT still uses up
  its sequence value, because PostgreSQL's `nextval` is not rolled back.
- `views.dfy` (module `Views`): the read-only handlers `index`,
  `instructor_dashboard`, `course_page` and `student_dashboard`, as functions
  of the database and the session. Also the response datatype (redirect,
  text with status, rendered page with its rows, or an uncaught exception
  answered with 500).
- `portal.dfy` (module `Portal`): class `Portal`. It holds the database, the
  session of the client making the requests, and a ghost log of emails sent.
  Each state-changing handler is a method. The invariant `Valid()` is the
  database constraints plus one enrollment row per (email, course). That rule
  holds only because `enroll` checks before it inserts.

The model follows the code as written:
- `course_page` requires some login, instructor or student. It does not check
  enrollment.
- Deleting a course that still has enrollments, lectures or assignments fails
  (NO ACTION). Nothing cascades.
- `enrollments` has no uniqueness constraint.
- Enrolling in a missing course fails in the foreign key and is answered with
  500, not with a "not found" outcome.
- A duplicate registration is answered with the text "Email already
  registered" and status 200.
- `enroll` reads the student row without checking it. A `student_id` with no
  row behind it (after `clear_students`) is answered with 500: `ServerError`,
  an error outcome, not a precondition.

`clear_students` restarts the sequences and leaves sessions alone. So a
browser still holding an old `student_id` is served as whichever student
registers next with that id (`StaleSessionResolvesToNewStudent`).

## Model

| member | source | states |
|---|---|---|
| `Store.Table.Insert` | app.py:48 | an INSERT appends one row carrying the next sequence value; ids stay increasing, inside [1, next), and the new id was not in use |
| `Store.Table.Burn` | app.py:337-351 | a rolled-back INSERT leaves the rows alone but still advances the sequence |
| `Store.EmptyTable` | app.py:46-54 | a newly created table, or one truncated with RESTART IDENTITY, has no rows and its sequence at 1 |
| `Store.Fresh` | app.py:42-95 | `init_db` on an empty server creates five empty tables, each sequence at 1, that satisfy every declared constraint |
| `Store.SerialIdIsKey` | app.py:48 | in a serial table two rows with the same id are the same row (primary key) |
| `Store.EmailIsKey` | app.py:60 | under `email UNIQUE` two student rows with the same email are the same row |
| `Store.Select` | app.py:303-307 | a WHERE query returns exactly the rows of the table that satisfy the condition |
| `Store.FindFirst` | app.py:293-295 | `fetchone()` returns a row satisfying the condition, and returns none exactly when no row satisfies it |
| `Store.StudentById` | app.py:430-431 | the lookup by id returns nothing iff no student has that id, otherwise a student row with that id |
| `Store.StudentByEmail` | app.py:372-373 | the lookup by email returns nothing iff the email is not registered, otherwise a student row with that email |
| `Store.CourseById` | app.py:293-294 | the lookup by id returns nothing iff no course has that id, otherwise the course row with that id |
| `Store.Enrolled` | app.py:433-437 | the existence check holds iff selecting the enrollment rows with that email and course returns at least one row |
| `Store.Referenced` | app.py:280 | the NO ACTION check holds iff selecting the enrollments, lectures or assignments with that course id returns at least one row |
| `Store.CountPositiveIffEnrolled` | app.py:433-437 | the `SELECT 1 ... WHERE email AND course_id` check finds a row iff at least one matching enrollment row exists |
| `Store.CountAppend` | app.py:442-445 | appending an enrollment row raises the count of matching rows by one exactly when the row matches |
| `Store.CountAtMostOne` | app.py:65-71 | where (email, course) pairs are unique, each pair occurs at most once |
| `Store.AppendKeepsOnePerPair` | app.py:433-445 | inserting only after the existence check finds nothing keeps (email, course) pairs unique |
| `Store.SelectSerial` | app.py:280 | deleting rows from a serial table keeps the remaining ids increasing and below the sequence |
| `Store.InsertCourse` | app.py:185-196 | inserting a course appends one row, changes no other table and preserves all constraints |
| `Store.InsertStudent` | app.py:337-351 | inserting a student fails with a unique violation iff the email is already registered; on failure the rows are unchanged, on success one row is appended; other tables unchanged, constraints preserved |
| `Store.InsertEnrollment` | app.py:442-447 | inserting an enrollment fails with a foreign-key violation iff the course does not exist; otherwise one row is appended; constraints preserved |
| `Store.InsertLecture` | app.py:221-227 | inserting a lecture fails with a foreign-key violation iff the course does not exist; otherwise one row is appended; constraints preserved |
| `Store.InsertAssignment` | app.py:254-260 | inserting an assignment fails with a foreign-key violation iff the course does not exist; otherwise one row is appended; constraints preserved |
| `Store.DeleteCourse` | app.py:280 | deleting a course fails and changes nothing iff an enrollment, lecture or assignment still references it; otherwise exactly the rows with that id are removed; constraints preserved |
| `Store.KeptCoursesCoverReferences` | app.py:70 | after an allowed delete every remaining reference still points at an existing course |
| `Store.TruncateStudents` | app.py:466 | TRUNCATE empties `students` and `enrollments` and restarts both sequences at 1; `courses`, `lectures` and `assignments` unchanged; constraints preserved |
| `Views.Index` | app.py:131-139 | the index lists every course once, in strictly decreasing id order |
| `Views.InstructorDashboard` | app.py:161-173 | the dashboard redirects to `/login` iff the instructor flag is absent; otherwise it lists all courses |
| `Views.CoursePage` | app.py:288-317 | 404 iff the course does not exist, whatever the session holds; an existing course with neither instructor nor student login redirects to `/student/login`; any logged-in caller gets the course with exactly its lectures and assignments |
| `Views.CoursePageIgnoresEnrollments` | app.py:300-307 | the course page depends on no enrollment: any enrollments table gives the same response |
| `Views.EnrolledCourses` | app.py:404-413 | the join yields exactly the courses referenced by an enrollment row with the given email |
| `Views.StudentDashboard` | app.py:396-419 | the dashboard redirects to `/student/login` iff no `student_id` is set; a `student_id` with no student row lists no course |
| `Views.StudentDashboardListsEnrolledCourses` | app.py:404-415 | a logged-in student's dashboard lists exactly the courses that have an enrollment row with that student's email |
| `Portal.SessionStudent` | app.py:430-431 | the lookup of the session's student finds nothing iff no student has that id; otherwise it returns the row with that id |
| `Portal.Portal.constructor` | app.py:42-99 | the server starts with the fresh database, an empty session and no email sent, and satisfies the invariant |
| `Portal.Portal.Login` | app.py:142-152 | the instructor flag is set iff the username equals the configured one and the password check passes; otherwise 401 with session unchanged; tables unchanged |
| `Portal.Portal.InstructorLogout` | app.py:155-158 | only the instructor flag is removed; redirect to `/` |
| `Portal.Portal.AddCourse` | app.py:176-203 | without the instructor flag: redirect to `/login` and no table changes; with it: one course row inserted |
| `Portal.Portal.AddLecture` | app.py:206-235 | without the instructor flag: redirect to `/login` and no table changes; with it: 500 and no change when the sanitised filename is empty (the save fails first), otherwise a lecture row with the sanitised filename, or 500 when the course is missing |
| `Portal.Portal.AddAssignment` | app.py:238-268 | without the instructor flag: redirect to `/login` and no table changes; with it: 500 and no change when the sanitised filename is empty (the save fails first), otherwise an assignment row with the sanitised filename, or 500 when the course is missing |
| `Portal.Portal.DeleteCourse` | app.py:273-285 | without the instructor flag: redirect to `/login` and no table changes; with it: the delete as the database allows it, or 500 when dependents exist |
| `Portal.Portal.StudentRegister` | app.py:331-363 | a taken email: "Email already registered", no row added, session unchanged; a fresh email: one row added, and `student_id` / `student_name` set to the new student |
| `Portal.Portal.StudentLogin` | app.py:366-386 | `student_id` / `student_name` are set iff a student with that email exists whose stored hash accepts the password; otherwise "Invalid login" with session unchanged |
| `Portal.Portal.StudentLogout` | app.py:389-393 | only `student_id` and `student_name` are removed; redirect to `/` |
| `Portal.Portal.Enroll` | app.py:422-457 | no `student_id`: redirect to `/student/login`, no table or email change; missing student row: 500 with nothing changed; already enrolled: no row and no email; a missing course: 500, no row and no email (the sequence value is still used up); otherwise exactly one row (name and email snapshot, course) and exactly one email to that student; afterwards exactly one matching row |
| `Portal.Portal.ClearStudents` | app.py:459-471 | without the instructor flag: 403 "Unauthorized" and nothing changed; with it: `students` and `enrollments` emptied with restarted ids, the other tables unchanged |
| `Portal.EnrollTwice` | app.py:433-457 | two enroll calls in a row leave the database exactly as one enroll leaves it (the second changes nothing, the other tables are untouched), exactly one matching row remains, and the email went out at most once |
| `Portal.RegisterTwice` | app.py:337-357 | registering the same email twice: the second is refused and exactly one student row carries that email |
| `Portal.StaleSessionResolvesToNewStudent` | app.py:466 | after TRUNCATE ... RESTART IDENTITY the next student registered takes id 1, so a session still holding `student_id` 1 resolves to that new student |

## Left out

- Flask routing, request parsing and templates. A rendered page is modelled as the template name and the rows passed to it. A missing form field (an HTTP 400) is not modelled.
- The GET branches of `login`, `add_course`, `add_lecture`, `add_assignment`, `student_register` and `student_login`. They only render a form and change no state. The model covers the POST branches.
- psycopg2 connections, cursors and SQL text. Failures of the database other than a violated constraint are not modelled.
- Rows come back in table order. PostgreSQL does not promise any order for a query without ORDER BY.
- `send_email` is only recorded as a call in the ghost `mailLog`. Its HTTP request, its timeout, the disabled mode without an API key, and its swallowed errors are not modelled.
- File saving and the download routes `download_lecture` / `download_assignment` are filesystem I/O. The one failure of the save that the model captures is an empty sanitised filename. Other save failures (permissions, a full disk) are not modelled. A file saved before a failed lecture or assignment insert stays on disk; the model does not track that.
- Store.Table.Insert: ids are unbounded here, while each `SERIAL` column draws from a 32-bit sequence. Once the `students` sequence is used up, every registration fails, and `student_register` answers "Email already registered" whatever the email. The other handlers would answer 500.
- `check_password_hash`, `generate_password_hash` and `secure_filename` are uninterpreted functions in the configuration. The random salt of `generate_password_hash` is not modelled: the function is deterministic here.
- Configuration read from the environment is a fixed `Config` value. An unset variable (Python `None`) is not modelled.
- Concurrency: the race between the existence check and the insert in `enroll` is not modelled. The handlers run one after another.
- The class holds the session of one client. Other clients' sessions are not modelled.
- `init_db` against a database whose tables already exist is not modelled. The server starts from empty tables.
