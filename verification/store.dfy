/** The user table and the repository queries the service issues against it. Users are
    soft-deleted: a row is never removed, only flagged, and every query here sees active
    rows (`isDeleted == false`) only. */
module UserStore {
  import opened Text
  import opened Users

  predicate IsActive(u: User)
  {
    !u.isDeleted
  }

  predicate ActiveNamed(u: User, name: string)
  {
    !u.isDeleted && u.userName == name
  }

  /** Ids are generated in sequence and rows are never removed, so row `i` carries id `i + 1`. */
  predicate WellNumbered(rows: seq<User>)
  {
    forall i :: 0 <= i < |rows| ==> rows[i].id == Some(i + 1)
  }

  /** No two active rows share a user name; inactive rows are not constrained. */
  predicate ActiveNamesUnique(rows: seq<User>)
  {
    forall i, j :: 0 <= i < j < |rows| && IsActive(rows[i]) && IsActive(rows[j]) ==>
      rows[i].userName != rows[j].userName
  }

  /** Positions of the active rows named `name`, in increasing order. */
  function Matches(rows: seq<User>, name: string): (ix: seq<nat>)
    ensures forall k :: 0 <= k < |ix| ==> ix[k] < |rows| && ActiveNamed(rows[ix[k]], name)
    ensures forall i :: 0 <= i < |rows| && ActiveNamed(rows[i], name) ==> i in ix
    ensures forall k, l :: 0 <= k < l < |ix| ==> ix[k] < ix[l]
  {
    if rows == [] then []
    else
      var n := |rows| - 1;
      Matches(rows[..n], name) + (if ActiveNamed(rows[n], name) then [n] else [])
  }

  /** The outcome of a single-result query on the active rows. */
  datatype Lookup = Missing | One(index: nat) | Many

  /** `findByUserNameAndIsDeleted(name, false)`: no row, the one active row named `name`, or a
      failure when several active rows carry that name. */
  function Find(rows: seq<User>, name: string): (l: Lookup)
    ensures l.Missing? <==> forall i :: 0 <= i < |rows| ==> !ActiveNamed(rows[i], name)
    ensures l.One? ==> l.index < |rows| && ActiveNamed(rows[l.index], name)
    ensures l.One? ==> forall j :: 0 <= j < |rows| && ActiveNamed(rows[j], name) ==> j == l.index
    ensures l.Many? <==>
              exists i, j :: 0 <= i < j < |rows| && ActiveNamed(rows[i], name) && ActiveNamed(rows[j], name)
  {
    var ix := Matches(rows, name);
    if |ix| == 0 then Missing
    else if |ix| == 1 then One(ix[0])
    else
      assert ix[0] < ix[1];
      Many
  }

  /** With unique active names a single-result query never fails for ambiguity. */
  lemma FindIsUnambiguous(rows: seq<User>, name: string)
    requires ActiveNamesUnique(rows)
    ensures !Find(rows, name).Many?
  {
  }

  /** The service's `findByUserName`: the active row named `name`, "User not found." when there
      is none, or the query's failure when several active rows carry the name. */
  function FindByUserName(rows: seq<User>, name: string): (r: Result<User>)
    ensures r.Ok? ==> r.value in rows && IsActive(r.value) && r.value.userName == name
    ensures r == Err(UserNotFound) <==> forall i :: 0 <= i < |rows| ==> !ActiveNamed(rows[i], name)
    ensures r.Err? ==> r.error == UserNotFound || r.error == NonUniqueResult
    ensures r == Err(NonUniqueResult) ==>
              exists i, j :: 0 <= i < j < |rows| && ActiveNamed(rows[i], name) && ActiveNamed(rows[j], name)
  {
    match Find(rows, name)
    case Missing => Err(UserNotFound)
    case One(i) => Ok(rows[i])
    case Many => Err(NonUniqueResult)
  }

  /** When at most one active row carries `name`, `findByUserName` succeeds exactly when an
      active row has the name, and returns that row; other names may be duplicated. */
  lemma FindByUserNameUnique(rows: seq<User>, name: string)
    requires forall i, j :: 0 <= i < j < |rows| && ActiveNamed(rows[i], name) ==> !ActiveNamed(rows[j], name)
    ensures FindByUserName(rows, name).Ok? <==> exists i :: 0 <= i < |rows| && ActiveNamed(rows[i], name)
    ensures forall i :: 0 <= i < |rows| && ActiveNamed(rows[i], name) ==> FindByUserName(rows, name) == Ok(rows[i])
  {
  }

  /** The rows that satisfy `keep`, in table order, each as often as it occurs. */
  function Where(rows: seq<User>, keep: User -> bool): (r: seq<User>)
    ensures forall u :: multiset(r)[u] == if keep(u) then multiset(rows)[u] else 0
    ensures forall k :: 0 <= k < |r| ==> keep(r[k])
  {
    if rows == [] then []
    else
      assert rows == [rows[0]] + rows[1..];
      (if keep(rows[0]) then [rows[0]] else []) + Where(rows[1..], keep)
  }

  /** Filtering with two filters that agree on every row gives the same rows. */
  lemma {:induction false} WhereCongruent(rows: seq<User>, p: User -> bool, q: User -> bool)
    requires forall u :: u in rows ==> p(u) == q(u)
    ensures Where(rows, p) == Where(rows, q)
  {
    if rows != [] {
      WhereCongruent(rows[1..], p, q);
    }
  }

  /** Rows that the filter rejects on both sides make no difference to the result. */
  lemma {:induction false} WhereIgnoresRejected(rows: seq<User>, rows2: seq<User>, keep: User -> bool)
    requires |rows| == |rows2|
    requires forall i :: 0 <= i < |rows| && (keep(rows[i]) || keep(rows2[i])) ==> rows[i] == rows2[i]
    ensures Where(rows, keep) == Where(rows2, keep)
  {
    if rows != [] {
      WhereIgnoresRejected(rows[1..], rows2[1..], keep);
    }
  }

  /** Descending order of first names. */
  predicate SortedByFirstNameDesc(s: seq<User>)
  {
    forall i, j :: 0 <= i < j < |s| ==> LexLessEq(s[j].firstName, s[i].firstName)
  }

  /** Every row of `s` has a first name at or before `name`. */
  predicate AllAtMost(s: seq<User>, name: string)
  {
    forall k :: 0 <= k < |s| ==> LexLessEq(s[k].firstName, name)
  }

  lemma AtMostByMultiset(t: seq<User>, s: seq<User>, name: string)
    requires multiset(t) <= multiset(s) && AllAtMost(s, name)
    ensures AllAtMost(t, name)
  {
    forall k | 0 <= k < |t| ensures LexLessEq(t[k].firstName, name) {
      assert t[k] in multiset(s);
    }
  }

  lemma SortedCons(x: User, t: seq<User>)
    requires SortedByFirstNameDesc(t) && AllAtMost(t, x.firstName)
    ensures SortedByFirstNameDesc([x] + t)
  {
  }

  /** Inserts `u` into a list ordered by first name descending, before the first row whose
      first name is not after `u`'s. */
  function InsertByFirstNameDesc(u: User, s: seq<User>): (r: seq<User>)
    requires SortedByFirstNameDesc(s)
    ensures SortedByFirstNameDesc(r)
    ensures multiset(r) == multiset(s) + multiset{u}
  {
    if s == [] then [u]
    else if LexLessEq(s[0].firstName, u.firstName) then
      assert AllAtMost(s, u.firstName) by {
        forall j | 0 < j < |s| ensures LexLessEq(s[j].firstName, u.firstName) {
          LexTransitive(s[j].firstName, s[0].firstName, u.firstName);
        }
      }
      SortedCons(u, s);
      [u] + s
    else
      var t := InsertByFirstNameDesc(u, s[1..]);
      assert s == [s[0]] + s[1..];
      assert AllAtMost(s[1..] + [u], s[0].firstName) by {
        LexTotal(s[0].firstName, u.firstName);
      }
      AtMostByMultiset(t, s[1..] + [u], s[0].firstName);
      SortedCons(s[0], t);
      [s[0]] + t
  }

  /** Rows ordered by first name, descending; rows with equal first names keep no particular order. */
  function OrderByFirstNameDesc(s: seq<User>): (r: seq<User>)
    ensures SortedByFirstNameDesc(r)
    ensures multiset(r) == multiset(s)
  {
    if s == [] then []
    else
      assert s == [s[0]] + s[1..];
      InsertByFirstNameDesc(s[0], OrderByFirstNameDesc(s[1..]))
  }

  /** The service's `listAllUsers`: every active row exactly as often as it is stored, no
      inactive row, ordered by first name descending. */
  function ListAllUsers(rows: seq<User>): (r: seq<User>)
    ensures SortedByFirstNameDesc(r)
    ensures forall u :: multiset(r)[u] == if IsActive(u) then multiset(rows)[u] else 0
  {
    OrderByFirstNameDesc(Where(rows, IsActive))
  }

  /** `listAllUsers` never looks at deleted rows: tables that differ only in rows deleted on
      both sides list the same users in the same order. */
  lemma ListAllUsersIgnoresDeletedRows(rows: seq<User>, rows2: seq<User>)
    requires |rows| == |rows2|
    requires forall i :: 0 <= i < |rows| && (IsActive(rows[i]) || IsActive(rows2[i])) ==> rows[i] == rows2[i]
    ensures ListAllUsers(rows) == ListAllUsers(rows2)
  {
    WhereIgnoresRejected(rows, rows2, IsActive);
  }

  /** The service's `listAllByRole`: every active row whose role description equals `role`
      ignoring case, in table order. */
  function ListAllByRole(rows: seq<User>, role: string): (r: seq<User>)
    ensures forall u :: multiset(r)[u] ==
              if IsActive(u) && EqualsIgnoreCase(u.role.description, role) then multiset(rows)[u] else 0
  {
    Where(rows, u => IsActive(u) && EqualsIgnoreCase(u.role.description, role))
  }

  /** Asking for a role in another letter case gives the same list. */
  lemma ListAllByRoleIgnoresCase(rows: seq<User>, role1: string, role2: string)
    requires EqualsIgnoreCase(role1, role2)
    ensures ListAllByRole(rows, role1) == ListAllByRole(rows, role2)
  {
    WhereCongruent(rows,
      u => IsActive(u) && EqualsIgnoreCase(u.role.description, role1),
      u => IsActive(u) && EqualsIgnoreCase(u.role.description, role2));
  }

  /** The row the repository's `save` writes: a record without an id, or with an id that names
      no row, gets the next generated id; a record whose id names a row keeps it. */
  function Stored(rows: seq<User>, u: User): (s: User)
    ensures s.id.Some? && 1 <= s.id.value <= |rows| + 1
    ensures (u.id.Some? && 1 <= u.id.value <= |rows|) <==> s.id.value <= |rows|
    ensures s == u.(id := s.id)
    ensures u.id.Some? && 1 <= u.id.value <= |rows| ==> s == u
  {
    if u.id.Some? && 1 <= u.id.value <= |rows| then u else u.(id := Some(|rows| + 1))
  }

  /** The table after the repository's `save`: an update of the row with the record's id, or
      an insertion at the end. */
  function Upsert(rows: seq<User>, u: User): (r: seq<User>)
    requires WellNumbered(rows)
    ensures WellNumbered(r)
    ensures var s := Stored(rows, u);
            |r| == if s.id.value <= |rows| then |rows| else |rows| + 1
    ensures r[Stored(rows, u).id.value - 1] == Stored(rows, u)
    ensures forall i :: 0 <= i < |rows| && i != Stored(rows, u).id.value - 1 ==> r[i] == rows[i]
  {
    if u.id.Some? && 1 <= u.id.value <= |rows| then rows[u.id.value - 1 := u]
    else rows + [Stored(rows, u)]
  }
}
