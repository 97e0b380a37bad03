/**
  The records of the course portal: the column values of each table, the
  per-client session dictionary, the configuration read at start-up and the
  emails handed to the mail service.
 */
module Records {

  datatype Option<+T> = None | Some(value: T)

  /** A row of `courses` without its serial `id`. */
  datatype Course = Course(title: string, instructor: string, description: string, submissionUrl: string)

  /** A row of `students`; `passwordHash` is what `generate_password_hash` produced. */
  datatype Student = Student(name: string, email: string, passwordHash: string)

  /** A row of `enrollments`: a snapshot of the student's name and email, and the course. */
  datatype Enrollment = Enrollment(studentName: string, email: string, courseId: nat)

  /** A row of `lectures`; `filename` is the sanitised upload name. */
  datatype Lecture = Lecture(title: string, filename: string, courseId: nat)

  /** A row of `assignments`. */
  datatype Assignment = Assignment(title: string, filename: string, dueDate: string, courseId: nat)

  /**
    The Flask session dictionary. The handlers only ever store `True` under
    "instructor", so the key being present is the flag; "student_id" and
    "student_name" are written and removed together.
   */
  datatype Session = Session(instructor: bool, studentId: Option<nat>, studentName: Option<string>) {

    /** `session.get("student_id")` is truthy: the key is present and its value is not 0. */
    predicate HasStudent() {
      studentId.Some? && studentId.value != 0
    }

    /** Neither gate of the portal lets this session through. */
    predicate Anonymous() {
      !instructor && !HasStudent()
    }
  }

  /** The session of a browser that has not logged in. */
  const NoSession: Session := Session(false, None, None)

  /** One call of `send_email`. */
  datatype Mail = Mail(to: string, subject: string, body: string)

  /**
    The configuration read from the environment at start-up, and the library
    functions the handlers call without this model looking inside them:
    werkzeug's password hashing and `secure_filename`.
   */
  datatype Config = Config(
    instructorUsername: string,
    instructorPasswordHash: string,
    checkPasswordHash: (string, string) -> bool,
    generatePasswordHash: string -> string,
    secureFilename: string -> string)
}
