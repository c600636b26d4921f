# User lifecycle service of the ticketing backend, in Dafny

This project models `UserServiceImpl`, the user lifecycle service of a small multi-role
ticketing backend (Admin, Manager and Employee users). The service sits over a user table
whose rows are soft-deleted. A row is never removed: it gets `isDeleted = true` and a new
user name. Every lookup the service makes sees active rows only.

The service does the following:

- **findByUserName** returns the active user with a given name, or fails with "User not found.".
- **listAllUsers** lists the active users by first name, descending.
- **listAllByRole** lists the active users whose role description matches, ignoring case.
- **save** creates a user. It forces `enabled`, encodes the password, writes the row and then
  tells the external identity directory.
- **update** re-encodes the password and overwrites the active row with the same user name.
  It keeps that row's id.
- **delete** is gated by the user's role:
  - a Manager is deleted only when the project oracle reports no unfinished projects;
  - an Employee is deleted only when the task oracle reports no unfinished tasks;
  - anybody else is always deleted.

  A deleted row is flagged and renamed to `<name>-<id>`. A refusal fails with
  "User can not be deleted" and writes nothing.

Layout:

- `text.dfy` (module `Text`): helpers for strings.
  - the decimal rendering of an id;
  - ASCII case folding, used for the case-insensitive role match;
  - lexicographic order, used for the order of first names.
- `users.dfy` (module `Users`): the data model.
  - the user record, roles and errors with their fixed messages;
  - the per-call answers of the two ownership oracles;
  - the log entries for repository writes and identity-directory calls.
- `store.dfy` (module `UserStore`): the table as a `seq<User>` and the repository queries.
  - `Find` is the single-result lookup over active rows;
  - `Upsert` and `Stored` are the repository's `save`;
  - `FindByUserName`, `ListAllUsers` and `ListAllByRole` are the service's three queries.
- `lifecycle.dfy` (module `Lifecycle`): the service's decisions as functions of the table.
  - `Created`, `Revised`, `CanBeDeleted`, `SoftDeleted`, `DeleteOutcome` and `AfterDelete`;
  - the lemmas that state what the service promises.
- `service.dfy` (module `Service`): class `UserServiceImpl`.
  - It holds the mutable table (`rows`), the password encoder (`encode`, a function fixed at
    construction) and a ghost log of effects (`effects`).
  - `Save`, `Update` and `Delete` change records and write them through `Persist`, as the
    source does.
  - Each method's `ensures` ties the new table and the new log to the functions above.

The collaborators are modelled as follows:

- The password encoder is an arbitrary function `string -> string`.
- The project oracle and the task oracle are the argument `oracles` of `Delete`. It holds
  the answers seen during that one call.
- The identity directory appears only as `DirectoryCreated` entries in the effect log. The
  log records each repository write and each directory call in the order they happen.
- Rows are numbered by the table's generated id: row `i` has id `i + 1` (`WellNumbered`).
  Ids are generated in sequence and rows are never removed.

Some consequences of the code that a caller might not expect:

- Suppose `update` or `delete` finds no active row with the given name. The code then
  dereferences the absent lookup result (`UserServiceImpl.java:90`, and `:122` through
  `checkIfUserCanBeDeleted`). The model reports `NullReference` there; neither method has a
  "not found" error of its own.
- The repository's single-result query fails when several active rows share a name. The
  model reports this as `NonUniqueResult`. As a result, a successful delete always means the
  name was unique. Afterwards no active row carries that name, and `DeleteFreesUserName`
  proves this with no uniqueness precondition.
- `save` does not check that the name is free (`CreateDoesNotCheckUniqueness`). Uniqueness
  of active names is therefore preserved by update and delete, and by a create only when the
  name is free (`CreateAppendsNewRow`). It is not an invariant the class enforces.
- The deletion check compares the role description exactly ("Manager", "Employee"), while
  `listAllByRole` ignores case. `RoleSwitchIsCaseSensitive` states the consequence for a role
  spelled in lower case.

## Model

| member | source | states |
|---|---|---|
| `UserStore.Find` | src/main/java/com/example/service/impl/UserServiceImpl.java:49 | the single-result lookup over active rows: `Missing` iff no active row has the name; `One(i)` names the only active row with it; `Many` iff two distinct active rows have it |
| `UserStore.FindIsUnambiguous` | src/main/java/com/example/service/impl/UserServiceImpl.java:49 | with unique active names the lookup never fails for ambiguity |
| `UserStore.FindByUserName` | src/main/java/com/example/service/impl/UserServiceImpl.java:48-52 | a result is a stored, active row with the requested name (never a soft-deleted one); the result is "User not found." exactly when no active row has the name; any other failure is the query's `NonUniqueResult`, and only when two active rows have the name |
| `UserStore.FindByUserNameUnique` | src/test/java/com/example/review/UserServiceImplTest.java:180-199 | when no two active rows share the requested name (other names may be duplicated), the lookup succeeds iff some active row has the name, and returns that row |
| `UserStore.ListAllUsers` | src/main/java/com/example/service/impl/UserServiceImpl.java:55-58 | the result is ordered by first name descending and holds every active row exactly as often as the table does, and no inactive row |
| `UserStore.ListAllUsersIgnoresDeletedRows` | src/main/java/com/example/service/impl/UserServiceImpl.java:56 | tables that differ only in rows deleted on both sides give the same list in the same order |
| `UserStore.OrderByFirstNameDesc` | src/main/java/com/example/service/impl/UserServiceImpl.java:56 | the ordering step returns a permutation of its input ordered by first name descending |
| `UserStore.InsertByFirstNameDesc` | src/main/java/com/example/service/impl/UserServiceImpl.java:56 | inserting into a list ordered by first name descending keeps it ordered and adds exactly that row |
| `UserStore.Where` | src/main/java/com/example/service/impl/UserServiceImpl.java:116-117 | filtering keeps each accepted row exactly as often as it occurs and drops every rejected row |
| `UserStore.ListAllByRole` | src/main/java/com/example/service/impl/UserServiceImpl.java:115-118 | the result holds every active row whose role description equals the requested role ignoring case, as often as the table does, and nothing else |
| `UserStore.ListAllByRoleIgnoresCase` | src/main/java/com/example/service/impl/UserServiceImpl.java:116 | asking for the role in another letter case gives the same list |
| `UserStore.WhereCongruent` | src/main/java/com/example/service/impl/UserServiceImpl.java:116 | two filters that agree on every row select the same rows |
| `UserStore.Stored` | src/main/java/com/example/service/impl/UserServiceImpl.java:68 | the written row is the input with an id; it names an existing row exactly when the input's id did (and then is that id), otherwise it is the next id |
| `UserStore.Upsert` | src/main/java/com/example/service/impl/UserServiceImpl.java:68 | the repository's save keeps the table well numbered, places the written row at its id, leaves every other row unchanged, and grows the table by one row exactly when the id is new |
| `Text.UpperCharAgrees` | src/main/java/com/example/service/impl/UserServiceImpl.java:116 | two characters upper-case to the same character iff they are equal or one is an ASCII lower-case letter and the other its upper-case form |
| `Text.EqualsIgnoreCaseIff` | src/main/java/com/example/service/impl/UserServiceImpl.java:116 | two strings are equal ignoring case iff they have the same length and at every position the characters are equal or are the lower- and upper-case forms of one ASCII letter |
| `Text.LexTotal` | src/main/java/com/example/service/impl/UserServiceImpl.java:56 | any two first names are comparable |
| `Text.LexTransitive` | src/main/java/com/example/service/impl/UserServiceImpl.java:56 | the order of first names is transitive |
| `Text.LexAntisymmetric` | src/main/java/com/example/service/impl/UserServiceImpl.java:56 | two first names that are each at or before the other are equal |
| `Text.Decimal` | src/main/java/com/example/service/impl/UserServiceImpl.java:106 | an id renders as a nonempty string of decimal digits whose value, read most significant digit first, is the id, with no leading zero; a single digit exactly for ids below ten |
| `Text.DecimalInjective` | src/main/java/com/example/service/impl/UserServiceImpl.java:106 | different ids render as different strings |
| `Lifecycle.Created` | src/main/java/com/example/service/impl/UserServiceImpl.java:63-64 | the record `save` writes is enabled and holds the encoded password; every other field comes from the input |
| `Service.UserServiceImpl.Persist` | src/main/java/com/example/service/impl/UserServiceImpl.java:68 | the repository write changes the table to `Upsert` of the old table, returns the written row and logs exactly one write |
| `Service.UserServiceImpl.Save` | src/main/java/com/example/service/impl/UserServiceImpl.java:61-74 | the saved row is enabled and holds `encode(password)`; the table is updated by one repository write; the identity directory is told once, after the write, about the same enabled, encoded record |
| `Lifecycle.CreateAppendsNewRow` | src/main/java/com/example/service/impl/UserServiceImpl.java:61-73 | creating a user without an id appends one row under the next id; when the name is not in use, active names stay unique |
| `Lifecycle.CreateDoesNotCheckUniqueness` | src/main/java/com/example/service/impl/UserServiceImpl.java:61-73 | creating a user under an active name leaves two active rows with that name, so a later lookup of it is ambiguous |
| `Lifecycle.Revised` | src/main/java/com/example/service/impl/UserServiceImpl.java:84-90 | the record `update` writes holds the encoded password and the id of the active row found by name; every other field comes from the input |
| `Service.UserServiceImpl.Update` | src/main/java/com/example/service/impl/UserServiceImpl.java:83-96 | with one active row of that name, the method overwrites that row and no other, keeps its id and stores `encode(password)`, whatever id the caller gave; otherwise it fails and writes nothing |
| `Lifecycle.UpdateKeepsIdentity` | src/main/java/com/example/service/impl/UserServiceImpl.java:86-92 | the repository write of an update lands on the found row, with that row's id, whatever id the input carried |
| `Lifecycle.UpdatePreservesUniqueness` | src/main/java/com/example/service/impl/UserServiceImpl.java:83-95 | an update keeps active user names unique |
| `Lifecycle.CanBeDeleted` | src/main/java/com/example/service/impl/UserServiceImpl.java:120-133 | a user may be deleted iff a "Manager" has no unfinished projects and an "Employee" has no unfinished tasks; any other role may always be deleted |
| `Lifecycle.CanBeDeletedConsultsOwnOracleOnly` | src/main/java/com/example/service/impl/UserServiceImpl.java:120-133 | eligibility of a Manager depends only on the project oracle and of an Employee only on the task oracle; any other role is eligible, whatever the oracles say |
| `Lifecycle.RoleSwitchIsCaseSensitive` | src/main/java/com/example/service/impl/UserServiceImpl.java:122-126 | the role switch matches descriptions exactly: an active row whose role reads "manager" is in the result of `listAllByRole("Manager")`, yet is deletable whatever the project oracle says |
| `Lifecycle.IdText` | src/main/java/com/example/service/impl/UserServiceImpl.java:106 | a present id is written as the decimal digits that spell it, with no leading zero; an absent id is written "null" |
| `Lifecycle.Retired` | src/main/java/com/example/service/impl/UserServiceImpl.java:106 | the retired name is the old name, a dash, and then exactly the text of the id |
| `Lifecycle.RetiredExample` | src/main/java/com/example/service/impl/UserServiceImpl.java:106 | "harold@manager.com" with id 2 is retired as "harold@manager.com-2" |
| `Lifecycle.RetiredNamesDistinct` | src/main/java/com/example/service/impl/UserServiceImpl.java:106 | the same name retired under two different ids gives two different names |
| `Lifecycle.SoftDeleted` | src/main/java/com/example/service/impl/UserServiceImpl.java:105-106 | a soft-deleted row is inactive and renamed to `<name>-<id>`; every other field is unchanged |
| `Service.UserServiceImpl.Delete` | src/main/java/com/example/service/impl/UserServiceImpl.java:100-112 | the outcome and the new table are `DeleteOutcome` and `AfterDelete` of the old table; a failure writes nothing; a success writes once and never calls the identity directory |
| `Lifecycle.DeleteOutcome` | src/main/java/com/example/service/impl/UserServiceImpl.java:100-112 | `delete` reports the null dereference exactly when no active row has the name; success only when an active row of that name may be deleted; the refusal only when an active row of that name may not be; the query's `NonUniqueResult` only when two active rows have the name |
| `Lifecycle.AfterDelete` | src/main/java/com/example/service/impl/UserServiceImpl.java:100-112 | the table after `delete` has the same length, and each row is either unchanged or an active row of that name that may be deleted, now soft-deleted |
| `Lifecycle.DeleteTouchesOnlyTheFoundRow` | src/main/java/com/example/service/impl/UserServiceImpl.java:102-110 | a delete succeeds iff exactly one active row has the name and it may be deleted; a failure leaves the table unchanged; a success changes only that row, keeps its id, and flags and renames it |
| `Lifecycle.ManagerWithOpenProjectsIsKept` | src/test/java/com/example/review/UserServiceImplTest.java:349-361 | deleting an active Manager that no other active row shares a name with, and that has unfinished projects, fails with "User can not be deleted" and leaves the table unchanged |
| `Lifecycle.EmployeeWithOpenTasksIsKept` | src/test/java/com/example/review/UserServiceImplTest.java:363-375 | deleting an active Employee that no other active row shares a name with, and that has unfinished tasks, fails with "User can not be deleted" and leaves the table unchanged |
| `Lifecycle.EligibleUserIsDeleted` | src/test/java/com/example/review/UserServiceImplTest.java:279-347 | deleting an eligible active user that no other active row shares a name with succeeds and soft-deletes exactly that row |
| `Lifecycle.DeleteFreesUserName` | src/main/java/com/example/service/impl/UserServiceImpl.java:102-107 | after a successful delete no active row has the old name, looking it up reports "User not found.", and a second delete of it fails |
| `Lifecycle.DeletePreservesWellNumbered` | src/main/java/com/example/service/impl/UserServiceImpl.java:104-107 | a delete never moves or renumbers a row |
| `Lifecycle.DeletePreservesUniqueness` | src/main/java/com/example/service/impl/UserServiceImpl.java:104-107 | a delete keeps active user names unique |
| `Lifecycle.FindAppended` | src/main/java/com/example/service/impl/UserServiceImpl.java:49 | an active row appended under a name no other active row has is the one the lookup finds |
| `Lifecycle.NameReusableAfterDelete` | src/main/java/com/example/service/impl/UserServiceImpl.java:104-107 | after a successful delete, creating a user with the same name and no id adds a row with a new id; the lookup finds the new row; the deleted row keeps its retired name |

## Left out

- HTTP controllers, security annotations and response wrapping are not modelled. They only
  delegate to the service.
- The performance-logging aspect is not modelled. It only reads the clock and logs.
- The `@DefaultExceptionMessage` annotation on `delete` is not modelled. It rewrites error
  messages outside the service.
- The identity directory's response to `userCreate` is not modelled, and neither are its
  failures. The service ignores the response. The model records the call in a ghost log.
- `delete` never calls the identity directory's account removal, and the model keeps it that
  way.
- The password-encoding algorithm is not modelled. The encoder is an arbitrary function, and
  nothing is proved about it differing from the plaintext.
- The DTO/entity mapper is modelled as a field-by-field copy. The model has one record type
  and no separate DTO.
- `save` and `update` set fields on the caller's own DTO object. The model passes records by
  value, so it does not show the caller's object being changed. The returned and written
  records are the changed ones.
- The ownership oracles are modelled as answers fixed for the duration of one `Delete` call.
  The race in which work is assigned between the check and the write is not modelled. There
  is no concurrency in the model.
- Transactions and store failures are not modelled.
- Null fields are not modelled. A null role or role description would fail in the source's
  `switch`, but every record here has a role with a description.
- Ids are unbounded naturals. The 64-bit range of the source's `Long` is not modelled.
- Gaps in the generated id sequence (ids skipped by the database) are not modelled: row `i`
  has id `i + 1`. The service itself relies only on ids being unique.
- ListAllUsers: orders first names by character code. The database collation is not
  modelled. Rows with equal first names may come in any order, since the query fixes none.
- ListAllByRole: the ensures fixes the contents and multiplicities of the result, not its
  order. The repository query has no ORDER BY.
- UserStore.ListAllByRole, Text.EqualsIgnoreCaseIff, Text.UpperCharAgrees: case folding
  covers ASCII letters only. The database's case folding of other characters is not
  modelled.
- No rule forbids deleting the last Admin. The source has no such rule; it appears only as a
  comment in the tests.
