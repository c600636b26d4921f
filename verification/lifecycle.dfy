/** The decisions of the user lifecycle service, as functions of the table: the record a
    create or an update writes, whether a user may be deleted, and what a delete does.
    The properties the service promises are lemmas over these functions. */
module Lifecycle {
  import opened Text
  import opened Users
  import opened UserStore

  /** The record `save` writes and announces to the identity directory: the input with
      `enabled` forced on and the password replaced by its encoding. */
  function Created(u: User, encode: string -> string): (c: User)
    ensures c.enabled && c.passWord == encode(u.passWord)
    ensures c.(enabled := u.enabled, passWord := u.passWord) == u
  {
    u.(enabled := true, passWord := encode(u.passWord))
  }

  /** The record `update` writes: the input with its password re-encoded and its id forced to
      that of `current`, the active row found by the input's user name. */
  function Revised(u: User, current: User, encode: string -> string): (v: User)
    ensures v.id == current.id && v.passWord == encode(u.passWord)
    ensures v.(id := u.id, passWord := u.passWord) == u
  {
    u.(passWord := encode(u.passWord), id := current.id)
  }

  /** `checkIfUserCanBeDeleted`: a manager only without unfinished projects, an employee only
      without unfinished tasks, anybody else always. The role description is matched exactly. */
  predicate CanBeDeleted(u: User, oracles: Oracles)
    ensures CanBeDeleted(u, oracles) <==>
              (u.role.description == "Manager" ==> oracles.nonCompletedProjects(u) == []) &&
              (u.role.description == "Employee" ==> oracles.nonCompletedTasks(u) == [])
  {
    if u.role.description == "Manager" then |oracles.nonCompletedProjects(u)| == 0
    else if u.role.description == "Employee" then |oracles.nonCompletedTasks(u)| == 0
    else true
  }

  /** The eligibility of a user depends only on the oracle of that user's role: the project
      oracle for a manager, the task oracle for an employee, and no oracle otherwise. */
  lemma CanBeDeletedConsultsOwnOracleOnly(u: User, o1: Oracles, o2: Oracles)
    ensures (u.role.description == "Manager" && o1.nonCompletedProjects(u) == o2.nonCompletedProjects(u))
              ==> CanBeDeleted(u, o1) == CanBeDeleted(u, o2)
    ensures (u.role.description == "Employee" && o1.nonCompletedTasks(u) == o2.nonCompletedTasks(u))
              ==> CanBeDeleted(u, o1) == CanBeDeleted(u, o2)
    ensures (u.role.description != "Manager" && u.role.description != "Employee")
              ==> CanBeDeleted(u, o1) && CanBeDeleted(u, o2)
  {
  }

  /** The role switch matches descriptions exactly, unlike `listAllByRole`: an active user whose
      role reads "manager" is listed among the managers, but is deletable whatever projects the
      project oracle reports. */
  lemma RoleSwitchIsCaseSensitive(rows: seq<User>, i: nat, oracles: Oracles)
    requires i < |rows| && IsActive(rows[i]) && rows[i].role.description == "manager"
    ensures rows[i] in ListAllByRole(rows, "Manager")
    ensures CanBeDeleted(rows[i], oracles)
  {
    assert Upper("manager") == "MANAGER" == Upper("Manager");
    assert multiset(rows)[rows[i]] > 0;
    assert multiset(ListAllByRole(rows, "Manager"))[rows[i]] > 0;
  }

  /** The text Java's string concatenation produces for an id, "null" for an absent one. */
  function IdText(id: Option<nat>): (t: string)
    ensures id.None? ==> t == "null"
    ensures id.Some? ==> 1 <= |t| && AllDigits(t) && DigitsValue(t) == id.value && (t[0] != '0' || id.value == 0)
  {
    match id
    case None => "null"
    case Some(n) => Decimal(n)
  }

  /** The user name a deleted row takes: the old name, a dash, and the row's id. */
  function Retired(name: string, id: Option<nat>): (r: string)
    ensures |r| > |name| + 1 && r[..|name|] == name && r[|name|] == '-'
    ensures r[|name| + 1..] == IdText(id)
  {
    name + "-" + IdText(id)
  }

  /** Retiring the same name under two different ids never gives the same user name, so a
      retired name is never taken twice. */
  lemma RetiredNamesDistinct(name: string, a: nat, b: nat)
    requires a != b
    ensures Retired(name, Some(a)) != Retired(name, Some(b))
  {
  }

  /** The rename the source's own comment gives as an example: manager "harold@manager.com"
      with id 2 is retired as "harold@manager.com-2". */
  lemma RetiredExample()
    ensures Retired("harold@manager.com", Some(2)) == "harold@manager.com-2"
  {
  }

  /** A soft-deleted row: flagged deleted and renamed, every other field as it was. */
  function SoftDeleted(u: User): (d: User)
    ensures !IsActive(d) && d.userName == Retired(u.userName, u.id)
    ensures d.(isDeleted := u.isDeleted, userName := u.userName) == u
  {
    u.(isDeleted := true, userName := Retired(u.userName, u.id))
  }

  /** What `delete(name)` reports: success only for an active row with that name that may be
      deleted, the null dereference exactly when no active row has the name, the refusal only
      for an active row with that name that may not be deleted, and the query's failure only
      when two active rows carry the name. */
  function DeleteOutcome(rows: seq<User>, name: string, oracles: Oracles): (r: Outcome)
    ensures r == Done ==>
              exists i :: 0 <= i < |rows| && ActiveNamed(rows[i], name) && CanBeDeleted(rows[i], oracles)
    ensures r == Failed(NullReference) <==> forall i :: 0 <= i < |rows| ==> !ActiveNamed(rows[i], name)
    ensures r == Failed(CannotBeDeleted) ==>
              exists i :: 0 <= i < |rows| && ActiveNamed(rows[i], name) && !CanBeDeleted(rows[i], oracles)
    ensures r == Failed(NonUniqueResult) ==>
              exists i, j :: 0 <= i < j < |rows| && ActiveNamed(rows[i], name) && ActiveNamed(rows[j], name)
  {
    match Find(rows, name)
    case Missing => Failed(NullReference)
    case Many => Failed(NonUniqueResult)
    case One(i) => if CanBeDeleted(rows[i], oracles) then Done else Failed(CannotBeDeleted)
  }

  /** The table after `delete(name)`: the one active row named `name` soft-deleted when it may
      be deleted, the table unchanged otherwise. */
  function AfterDelete(rows: seq<User>, name: string, oracles: Oracles): (r: seq<User>)
    ensures |r| == |rows|
    ensures forall j :: 0 <= j < |rows| ==>
              r[j] == rows[j] ||
              (ActiveNamed(rows[j], name) && CanBeDeleted(rows[j], oracles) && r[j] == SoftDeleted(rows[j]))
  {
    match Find(rows, name)
    case One(i) => if CanBeDeleted(rows[i], oracles) then rows[i := SoftDeleted(rows[i])] else rows
    case _ => rows
  }

  /** A failed delete changes nothing; a successful one rewrites exactly the row found, leaving
      its id and every other row as they were. */
  lemma DeleteTouchesOnlyTheFoundRow(rows: seq<User>, name: string, oracles: Oracles)
    ensures DeleteOutcome(rows, name, oracles).Failed? ==> AfterDelete(rows, name, oracles) == rows
    ensures DeleteOutcome(rows, name, oracles).Done? <==>
              Find(rows, name).One? && CanBeDeleted(rows[Find(rows, name).index], oracles)
    ensures DeleteOutcome(rows, name, oracles).Done? ==>
              var i := Find(rows, name).index;
              var after := AfterDelete(rows, name, oracles);
              |after| == |rows| && after[i].id == rows[i].id && !IsActive(after[i]) &&
              after[i].userName == Retired(name, rows[i].id) &&
              forall j :: 0 <= j < |rows| && j != i ==> after[j] == rows[j]
  {
  }

  /** A manager, the only active row with its name, assigned to unfinished projects is not deleted: the delete fails with
      "User can not be deleted" and the table is left as it was. */
  lemma ManagerWithOpenProjectsIsKept(rows: seq<User>, i: nat, oracles: Oracles)
    requires i < |rows| && IsActive(rows[i]) && rows[i].role.description == "Manager"
    requires forall j :: 0 <= j < |rows| && ActiveNamed(rows[j], rows[i].userName) ==> j == i
    requires |oracles.nonCompletedProjects(rows[i])| > 0
    ensures DeleteOutcome(rows, rows[i].userName, oracles) == Failed(CannotBeDeleted)
    ensures Message(DeleteOutcome(rows, rows[i].userName, oracles).error) == Some("User can not be deleted")
    ensures AfterDelete(rows, rows[i].userName, oracles) == rows
  {
  }

  /** An employee, the only active row with its name, assigned to unfinished tasks is not deleted: the delete fails with
      "User can not be deleted" and the table is left as it was. */
  lemma EmployeeWithOpenTasksIsKept(rows: seq<User>, i: nat, oracles: Oracles)
    requires i < |rows| && IsActive(rows[i]) && rows[i].role.description == "Employee"
    requires forall j :: 0 <= j < |rows| && ActiveNamed(rows[j], rows[i].userName) ==> j == i
    requires |oracles.nonCompletedTasks(rows[i])| > 0
    ensures DeleteOutcome(rows, rows[i].userName, oracles) == Failed(CannotBeDeleted)
    ensures Message(DeleteOutcome(rows, rows[i].userName, oracles).error) == Some("User can not be deleted")
    ensures AfterDelete(rows, rows[i].userName, oracles) == rows
  {
  }

  /** An active user that may be deleted and is the only active row with its name (a manager without unfinished projects, an employee
      without unfinished tasks, or any other role) is soft-deleted and renamed. */
  lemma EligibleUserIsDeleted(rows: seq<User>, i: nat, oracles: Oracles)
    requires i < |rows| && IsActive(rows[i]) && CanBeDeleted(rows[i], oracles)
    requires forall j :: 0 <= j < |rows| && ActiveNamed(rows[j], rows[i].userName) ==> j == i
    ensures DeleteOutcome(rows, rows[i].userName, oracles) == Done
    ensures AfterDelete(rows, rows[i].userName, oracles) == rows[i := SoftDeleted(rows[i])]
  {
  }

  /** After a successful delete no active row carries the deleted user's name any more, so
      looking the name up reports "User not found." and deleting it again fails. */
  lemma DeleteFreesUserName(rows: seq<User>, name: string, oracles: Oracles, again: Oracles)
    requires DeleteOutcome(rows, name, oracles) == Done
    ensures forall j :: 0 <= j < |rows| ==> !ActiveNamed(AfterDelete(rows, name, oracles)[j], name)
    ensures FindByUserName(AfterDelete(rows, name, oracles), name) == Err(UserNotFound)
    ensures DeleteOutcome(AfterDelete(rows, name, oracles), name, again) == Failed(NullReference)
  {
  }

  /** Delete keeps the table well numbered: it renames a row but never moves or renumbers one. */
  lemma DeletePreservesWellNumbered(rows: seq<User>, name: string, oracles: Oracles)
    requires WellNumbered(rows)
    ensures WellNumbered(AfterDelete(rows, name, oracles))
  {
  }

  /** Delete keeps active user names unique. */
  lemma DeletePreservesUniqueness(rows: seq<User>, name: string, oracles: Oracles)
    requires ActiveNamesUnique(rows)
    ensures ActiveNamesUnique(AfterDelete(rows, name, oracles))
  {
  }

  /** An update of an active user overwrites that user's row and no other, whatever id the
      caller supplied, and keeps the row's id. */
  lemma UpdateKeepsIdentity(rows: seq<User>, u: User, encode: string -> string)
    requires WellNumbered(rows) && Find(rows, u.userName).One?
    ensures var i := Find(rows, u.userName).index;
            var v := Revised(u, rows[i], encode);
            Stored(rows, v) == v && v.id == Some(i + 1) &&
            Upsert(rows, v) == rows[i := v]
  {
  }

  /** An update keeps active user names unique: the row it writes keeps the user name under
      which it was found. */
  lemma UpdatePreservesUniqueness(rows: seq<User>, u: User, encode: string -> string)
    requires WellNumbered(rows) && ActiveNamesUnique(rows) && Find(rows, u.userName).One?
    ensures ActiveNamesUnique(Upsert(rows, Revised(u, rows[Find(rows, u.userName).index], encode)))
  {
  }

  /** Creating a user without an id appends a new row with the next id and keeps active user
      names unique when the name is not in use. */
  lemma CreateAppendsNewRow(rows: seq<User>, u: User, encode: string -> string)
    requires WellNumbered(rows) && ActiveNamesUnique(rows) && u.id.None? && !u.isDeleted
    requires Find(rows, u.userName).Missing?
    ensures var c := Created(u, encode);
            Upsert(rows, c) == rows + [c.(id := Some(|rows| + 1))]
    ensures ActiveNamesUnique(Upsert(rows, Created(u, encode)))
  {
  }

  /** Appending an active row under a name no active row carries makes that row the one the
      name finds. */
  lemma FindAppended(rows: seq<User>, v: User)
    requires IsActive(v)
    requires forall j :: 0 <= j < |rows| ==> !ActiveNamed(rows[j], v.userName)
    ensures Find(rows + [v], v.userName) == One(|rows|)
  {
  }

  /** `save` does not look for an active row with the same user name: creating a user under
      a name already in use leaves two active rows with that name. */
  lemma CreateDoesNotCheckUniqueness(rows: seq<User>, u: User, encode: string -> string)
    requires WellNumbered(rows) && u.id.None? && !u.isDeleted
    requires Find(rows, u.userName).One?
    ensures !ActiveNamesUnique(Upsert(rows, Created(u, encode)))
    ensures Find(Upsert(rows, Created(u, encode)), u.userName).Many?
  {
  }

  /** A deleted user's name can be taken again: after a successful delete, creating a user
      with that name and no id adds a new row with a new id, and looking the name up finds
      the new row, not the deleted one, which keeps its retired name. */
  lemma NameReusableAfterDelete(rows: seq<User>, name: string, oracles: Oracles,
                                u: User, encode: string -> string)
    requires WellNumbered(rows) && DeleteOutcome(rows, name, oracles) == Done
    requires u.userName == name && u.id.None? && !u.isDeleted
    ensures var after := AfterDelete(rows, name, oracles);
            var added := Created(u, encode).(id := Some(|rows| + 1));
            var i := Find(rows, name).index;
            && Upsert(after, Created(u, encode)) == after + [added]
            && FindByUserName(Upsert(after, Created(u, encode)), name) == Ok(added)
            && added.id != rows[i].id
            && Upsert(after, Created(u, encode))[i].userName == Retired(name, rows[i].id)
  {
    var i := Find(rows, name).index;
    var after := AfterDelete(rows, name, oracles);
    DeleteFreesUserName(rows, name, oracles, oracles);
    DeletePreservesWellNumbered(rows, name, oracles);
    var added := Created(u, encode).(id := Some(|rows| + 1));
    var next := Upsert(after, Created(u, encode));
    assert |after| == |rows|;
    assert next == after + [added];
    FindAppended(after, added);
    assert next[i] == after[i] == SoftDeleted(rows[i]);
  }
}
