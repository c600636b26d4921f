/** The user lifecycle service: it owns the user table and performs create, update and delete
    by changing records and writing them through the repository. The password encoder is a
    function fixed at construction; the ownership oracles are consulted per call; the identity
    directory is observed through the log of effects. */
module Service {
  import opened Users
  import opened UserStore
  import opened Lifecycle

  class UserServiceImpl {
    /** The user table, soft-deleted rows included. */
    var rows: seq<User>
    /** The password encoder. */
    const encode: string -> string
    /** Repository writes and identity-directory calls, oldest first. */
    ghost var effects: seq<Effect>

    ghost predicate Valid()
      reads this
    {
      WellNumbered(rows)
    }

    constructor (encode: string -> string, rows: seq<User>)
      requires WellNumbered(rows)
      ensures Valid()
      ensures this.encode == encode && this.rows == rows && effects == []
    {
      this.encode := encode;
      this.rows := rows;
      effects := [];
    }

    /** The repository's `save`: writes `u` over the row with its id, or appends it under the
        next id, and returns the row as written. */
    method Persist(u: User) returns (saved: User)
      requires Valid()
      modifies this
      ensures Valid()
      ensures saved == Stored(old(rows), u) && rows == Upsert(old(rows), u)
      ensures effects == old(effects) + [Persisted(saved)]
    {
      if u.id.Some? && 1 <= u.id.value <= |rows| {
        saved := u;
        rows := rows[u.id.value - 1 := saved];
      } else {
        saved := u.(id := Some(|rows| + 1));
        rows := rows + [saved];
      }
      effects := effects + [Persisted(saved)];
    }

    /** `save`: enables the user, encodes the password, writes the record, then announces the
        account to the identity directory, exactly once and after the write. */
    method Save(user: User) returns (saved: User)
      requires Valid()
      modifies this
      ensures Valid()
      ensures saved.enabled && saved.passWord == encode(user.passWord)
      ensures saved == Stored(old(rows), Created(user, encode))
      ensures rows == Upsert(old(rows), Created(user, encode))
      ensures effects == old(effects) + [Persisted(saved), DirectoryCreated(Created(user, encode))]
    {
      var dto := user.(enabled := true);
      dto := dto.(passWord := encode(dto.passWord));
      saved := Persist(dto);
      effects := effects + [DirectoryCreated(dto)];
    }

    /** `update`: re-encodes the password and writes the record over the active row with the
        same user name, whatever id the caller supplied. Without such a row the lookup result
        is dereferenced while absent and nothing is written. */
    method Update(user: User) returns (r: Result<User>)
      requires Valid()
      modifies this
      ensures Valid()
      ensures Find(old(rows), user.userName).Missing? ==>
                r == Err(NullReference) && rows == old(rows) && effects == old(effects)
      ensures Find(old(rows), user.userName).Many? ==>
                r == Err(NonUniqueResult) && rows == old(rows) && effects == old(effects)
      ensures Find(old(rows), user.userName).One? ==>
                var i := Find(old(rows), user.userName).index;
                var v := Revised(user, old(rows)[i], encode);
                && r == Ok(v)
                && v.id == old(rows)[i].id && v.passWord == encode(user.passWord)
                && rows == old(rows)[i := v]
                && effects == old(effects) + [Persisted(v)]
    {
      var dto := user.(passWord := encode(user.passWord));
      var found := Find(rows, dto.userName);
      match found
      case Missing =>
        r := Err(NullReference);
      case Many =>
        r := Err(NonUniqueResult);
      case One(i) =>
        var current := rows[i];
        var converted := dto.(id := current.id);
        UpdateKeepsIdentity(rows, user, encode);
        var saved := Persist(converted);
        r := Ok(saved);
    }

    /** `delete`: finds the active row by user name and, if its role's oracle reports no
        unfinished work, flags it deleted, renames it to "<name>-<id>" and writes it; otherwise
        fails with "User can not be deleted". The identity directory is not told. */
    method Delete(name: string, oracles: Oracles) returns (r: Outcome)
      requires Valid()
      modifies this
      ensures Valid()
      ensures r == DeleteOutcome(old(rows), name, oracles)
      ensures rows == AfterDelete(old(rows), name, oracles)
      ensures r.Failed? ==> effects == old(effects)
      ensures r.Done? ==> effects == old(effects) + [Persisted(rows[Find(old(rows), name).index])]
    {
      var found := Find(rows, name);
      match found
      case Missing =>
        r := Failed(NullReference);
      case Many =>
        r := Failed(NonUniqueResult);
      case One(i) =>
        var user := rows[i];
        if CanBeDeleted(user, oracles) {
          user := user.(isDeleted := true);
          user := user.(userName := user.userName + "-" + IdText(user.id));
          var saved := Persist(user);
          r := Done;
        } else {
          r := Failed(CannotBeDeleted);
        }
    }
  }
}
