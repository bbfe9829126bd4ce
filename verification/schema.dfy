/** The `users` table: its record shape, the column constraints the database enforces, and the
    `where email = ?` selection every route performs. */
module Schema {
  import opened Wrappers

  /** A point in time as written by the database clock (`defaultNow()`). */
  type Timestamp = int

  /** Both text columns are `varchar(255)`; PostgreSQL counts characters. */
  const MaxEmailLength: nat := 255
  const MaxPasswordLength: nat := 255

  /** PostgreSQL text cannot hold U+0000: a parameter containing it is refused by the server. */
  const Nul: char := '\0'

  /** How PostgreSQL assigns a string to a `varchar(limit)` column. A value containing U+0000 is
      refused. A longer value is refused too, unless every character past the limit is a space, in
      which case it is cut to the limit. */
  function ToVarchar(s: string, limit: nat): (stored: Option<string>)
    ensures stored.Some? <==> Nul !in s && forall i | limit <= i < |s| :: s[i] == ' '
    ensures stored.Some? ==>
      && |stored.value| <= limit
      && stored.value <= s
      && (forall i | |stored.value| <= i < |s| :: s[i] == ' ')
      && (|s| <= limit ==> stored.value == s)
      && (|s| > limit ==> stored.value == s[..limit])
  {
    if Nul in s then None
    else if |s| <= limit then Some(s)
    else if forall i | limit <= i < |s| :: s[i] == ' ' then Some(s[..limit])
    else None
  }

  /** One row. `password` holds the digest, never the plaintext (the routes only ever insert a hash). */
  datatype UserRow = UserRow(userId: nat, email: string, password: string, createdAt: Timestamp, updatedAt: Timestamp)

  /** The `varchar(255)` bounds of a row. */
  predicate Fits(row: UserRow) {
    |row.email| <= MaxEmailLength && |row.password| <= MaxPasswordLength
  }

  /** The `unique()` constraint on `email`. */
  predicate EmailsUnique(rows: seq<UserRow>) {
    forall i, j | 0 <= i < j < |rows| :: rows[i].email != rows[j].email
  }

  /** The primary-key constraint on `user_id`. */
  predicate IdsUnique(rows: seq<UserRow>) {
    forall i, j | 0 <= i < j < |rows| :: rows[i].userId != rows[j].userId
  }

  /** Every constraint the table declares, over its whole contents. */
  predicate TableInvariant(rows: seq<UserRow>) {
    && EmailsUnique(rows)
    && IdsUnique(rows)
    && forall i | 0 <= i < |rows| :: Fits(rows[i])
  }

  /** `db.select().from(usersTable).where(eq(usersTable.email, email))`: the rows holding that email, in table order. */
  function Lookup(rows: seq<UserRow>, email: string): (found: seq<UserRow>)
    ensures forall k | 0 <= k < |found| :: found[k].email == email && found[k] in rows
    ensures found == [] <==> forall i | 0 <= i < |rows| :: rows[i].email != email
    ensures EmailsUnique(rows) ==> |found| <= 1
  {
    if rows == [] then []
    else if rows[0].email == email then
      assert EmailsUnique(rows) ==> forall i | 0 <= i < |rows[1..]| :: rows[1..][i].email != email by {
        if EmailsUnique(rows) {
          forall i | 0 <= i < |rows[1..]| ensures rows[1..][i].email != email {
            assert rows[1..][i] == rows[i + 1];
          }
        }
      }
      [rows[0]] + Lookup(rows[1..], email)
    else
      Lookup(rows[1..], email)
  }

  /** The select as the server runs it on a query parameter. A NULL parameter (`None`) matches no
      row, since `email = NULL` is never true. A parameter holding U+0000 is refused, which the
      caller meets as a thrown error (`None`). */
  function SelectRows(rows: seq<UserRow>, email: Option<string>): (found: Option<seq<UserRow>>)
    ensures found.None? <==> email.Some? && Nul in email.value
    ensures found.Some? ==> forall k | 0 <= k < |found.value| :: found.value[k] in rows && Some(found.value[k].email) == email
    ensures found.Some? && email.Some? ==> (found.value == [] <==> forall i | 0 <= i < |rows| :: rows[i].email != email.value)
  {
    if email.None? then Some([])
    else if Nul in email.value then None
    else Some(Lookup(rows, email.value))
  }

  /** With unique emails, a registered email selects exactly its own row. */
  lemma LookupUnique(rows: seq<UserRow>, i: nat)
    requires EmailsUnique(rows)
    requires i < |rows|
    ensures Lookup(rows, rows[i].email) == [rows[i]]
  {
  }

  /** Appending a row changes the selection of its own email only, and only by that row. */
  lemma {:induction false} LookupAppend(rows: seq<UserRow>, row: UserRow, email: string)
    ensures Lookup(rows + [row], email) == Lookup(rows, email) + (if row.email == email then [row] else [])
  {
    if rows == [] {
      assert rows + [row] == [row];
      assert [row][1..] == [];
    } else {
      assert (rows + [row])[0] == rows[0];
      assert (rows + [row])[1..] == rows[1..] + [row];
      LookupAppend(rows[1..], row, email);
    }
  }

  /** Adding a row whose email is new, whose id is above every existing id and which fits the columns
      keeps every table constraint. */
  lemma AppendKeepsInvariant(rows: seq<UserRow>, row: UserRow)
    requires TableInvariant(rows)
    requires Lookup(rows, row.email) == []
    requires forall i | 0 <= i < |rows| :: rows[i].userId < row.userId
    requires Fits(row)
    ensures TableInvariant(rows + [row])
  {
  }
}
