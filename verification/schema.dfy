/** Rows of the tables the handlers read and write, and the errors they answer with. */
module Schema {
  import opened Wrappers

  /**
   * A row of the request table.  Timestamps are whole hours (see Calendar);
   * the acceptance and completion dates and the specialist are nullable.
   */
  datatype Request = Request(
    problemId: int,
    specialistId: Option<int>,
    statusId: int,
    description: string,
    sendDate: int,
    acceptDate: Option<int>,
    completeDate: Option<int>)

  datatype Specialist = Specialist(
    jobtitleId: int,
    name: string,
    phone: string,
    login: string,
    password: string,
    mail: string)

  /** A row of the resolves table: this specialist handles this problem type. */
  datatype Resolves = Resolves(problemId: int, specialistId: int)

  /**
   * NotFound is a 404 answer, MissingName a 400 answer; the others are the
   * 500 answers of a failed statement (a taken primary key, a statement
   * whose parameters do not fit) or of the missing "completed" status.
   */
  datatype Error = NotFound | MissingName | DuplicateKey | QueryError | MissingCompletedStatus

  /** The three status names the reports look for. */
  const CompletedName: string := "Выполнена"
  const PendingName: string := "На принятии"
  const InProgressName: string := "В работе"
}
