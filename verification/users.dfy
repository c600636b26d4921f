/** The values the user service works with: user records, roles, the service's errors,
    the answers of the two ownership oracles, and the externally visible effects. */
module Users {

  datatype Option<T> = None | Some(value: T)

  /** A role is identified by its description: "Admin", "Manager", "Employee" or anything else. */
  datatype Role = Role(description: string)

  datatype Gender = Male | Female

  /** A user row. `id` is absent on a record that was never persisted. The service and the
      repository exchange these records; the DTO/entity mapper is a field-by-field copy, so the
      model uses one record type for both. */
  datatype User = User(
    id: Option<nat>,
    firstName: string,
    lastName: string,
    userName: string,
    passWord: string,
    enabled: bool,
    isDeleted: bool,
    role: Role,
    gender: Gender)

  /** The ways an operation of the service fails. */
  datatype Error =
    | UserNotFound      // NoSuchElementException raised by findByUserName
    | CannotBeDeleted   // TicketingProjectException raised by delete
    | NullReference     // an absent lookup result dereferenced by update or delete
    | NonUniqueResult   // a single-result repository query that matched several active rows

  /** The fixed message the service attaches to an error; the other two errors carry whatever
      message the runtime or the repository library gives them. */
  function Message(e: Error): Option<string>
  {
    match e
    case UserNotFound => Some("User not found.")
    case CannotBeDeleted => Some("User can not be deleted")
    case NullReference => None
    case NonUniqueResult => None
  }

  datatype Result<T> = Ok(value: T) | Err(error: Error)

  /** The result of an operation that returns nothing on success. */
  datatype Outcome = Done | Failed(error: Error)

  /** The two ownership oracles, as seen by one call: the unfinished projects a manager is
      assigned to (by project code) and the unfinished tasks an employee is assigned to (by id). */
  datatype Oracles = Oracles(
    nonCompletedProjects: User -> seq<string>,
    nonCompletedTasks: User -> seq<nat>)

  /** What the service does outside its own memory, in the order it happens: a write to the
      user repository, or an account creation sent to the identity directory. */
  datatype Effect = Persisted(row: User) | DirectoryCreated(account: User)
}
