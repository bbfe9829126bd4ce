/** The database handle the routes share: the `users` table held in place, with the checks
    PostgreSQL performs on a query parameter and on an inserted row. The SQL driver itself is not
    part of this model. */
module Database {
  import opened Wrappers
  import opened Schema

  class UsersTable {
    var rows: seq<UserRow>
    /** The identity sequence behind `generatedAlwaysAsIdentity()`: the next `user_id` to hand out. */
    var nextId: nat

    /** The declared constraints hold, and every id handed out so far is below the sequence. */
    ghost predicate Valid()
      reads this
    {
      TableInvariant(rows) && forall i | 0 <= i < |rows| :: rows[i].userId < nextId
    }

    /** A fresh, empty table; identity columns start at 1. */
    constructor ()
      ensures Valid() && rows == [] && nextId == 1
    {
      rows := [];
      nextId := 1;
    }

    /** `select ... where email = $1` on the current contents. */
    function Select(email: Option<string>): (found: Option<seq<UserRow>>)
      reads this
      ensures found == SelectRows(rows, email)
    {
      SelectRows(rows, email)
    }

    /** `db.insert(usersTable).values({ email, password }).returning()`. The caller supplies neither id
        nor timestamps: the id comes from the identity sequence, both timestamps from the clock.
        Each value is assigned to its `varchar(255)` column as PostgreSQL does (see `ToVarchar`),
        and the statement is all-or-nothing: it succeeds exactly when the connection is up, the
        email is not NULL, both values can be assigned, and the assigned email is not yet present;
        otherwise it is rejected and the table is left as it was. The returned row is the stored one. */
    method Insert(email: Option<string>, password: string, now: Timestamp, reachable: bool) returns (inserted: Option<UserRow>)
      requires Valid()
      modifies this
      ensures Valid()
      ensures inserted.Some? <==>
        && reachable
        && email.Some?
        && ToVarchar(email.value, MaxEmailLength).Some?
        && ToVarchar(password, MaxPasswordLength).Some?
        && Lookup(old(rows), ToVarchar(email.value, MaxEmailLength).value) == []
      ensures inserted.Some? ==>
        && inserted.value == UserRow(old(nextId), ToVarchar(email.value, MaxEmailLength).value,
                                     ToVarchar(password, MaxPasswordLength).value, now, now)
        && rows == old(rows) + [inserted.value]
        && nextId == old(nextId) + 1
      ensures inserted.None? ==> unchanged(this)
    {
      if !reachable || email.None? {
        return None;
      }
      var storedEmail := ToVarchar(email.value, MaxEmailLength);
      var storedPassword := ToVarchar(password, MaxPasswordLength);
      if storedEmail.None? || storedPassword.None? || Lookup(rows, storedEmail.value) != [] {
        return None;
      }
      var row := UserRow(nextId, storedEmail.value, storedPassword.value, now, now);
      AppendKeepsInvariant(rows, row);
      rows := rows + [row];
      nextId := nextId + 1;
      inserted := Some(row);
    }
  }
}
