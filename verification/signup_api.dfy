/** The signup endpoint under `pages/api`: preflight handling, a presence check, a duplicate check,
    then hash-and-insert; every thrown error becomes a 500. */
module SignupApi {
  import opened Messages
  import opened Schema
  import opened Hashing
  import opened Database

  const Preflight := Response(204, Empty)
  const FieldsRequired := Response(400, ErrorBody("Email and password are required"))
  const AlreadyRegistered := Response(400, ErrorBody("Email already registered"))
  const InternalServerError := Response(500, ErrorBody("Internal server error"))

  function Created(email: string): Response {
    Response(201, SignupBody(true, UserView(email)))
  }

  /** The `POST` handler. `salt` is the randomness bcrypt draws, `now` the database clock, `fault`
      the connection failure (if any) the handler meets. */
  method Post(store: UsersTable, hasher: Hasher, verb: Verb, payload: Payload, salt: string, now: Timestamp, fault: StoreFault)
    returns (response: Response)
    requires store.Valid()
    modifies store
    ensures store.Valid()
    // Preflight: answered before anything is read, the table untouched.
    ensures verb == OptionsMethod ==> response == Preflight && unchanged(store)
    // No body, unparsable JSON or JSON null: the thrown error is caught.
    ensures verb != OptionsMethod && !payload.Credentials? ==> response == InternalServerError && unchanged(store)
    // Presence check, before any lookup: `!email || !password`.
    ensures verb != OptionsMethod && payload.Credentials? && !(Truthy(payload.email) && Truthy(payload.password)) ==>
      response == FieldsRequired && unchanged(store)
    // From here on both fields are non-empty strings; no strength rule is applied to the password.
    ensures verb != OptionsMethod && payload.Credentials? && Truthy(payload.email) && Truthy(payload.password) ==>
      var email, password := payload.email.text, payload.password.text;
      var digest := hasher.hash(SaltRounds, salt, password);
      var storedEmail, storedDigest := ToVarchar(email, MaxEmailLength), ToVarchar(digest, MaxPasswordLength);
      if fault == SelectFails || Nul in email then
        // The select throws: connection lost, or a parameter the server refuses.
        response == InternalServerError && unchanged(store)
      else if Lookup(old(store.rows), email) != [] then
        // A registered email: rejected, the existing row is not overwritten.
        response == AlreadyRegistered && unchanged(store)
      else if || fault == InsertFails || storedEmail.None? || storedDigest.None?
              || Lookup(old(store.rows), storedEmail.value) != [] then
        // The store rejects the row (connection lost, a value that does not fit its column, or an
        // email that collides once cut to the column): nothing is written.
        response == InternalServerError && unchanged(store)
      else
        // Exactly one new row, holding the email and the digest as the columns store them, never
        // the plaintext; the reply echoes the stored email and carries no hash.
        && response == Created(storedEmail.value)
        && store.rows == old(store.rows) + [UserRow(old(store.nextId), storedEmail.value, storedDigest.value, now, now)]
    ensures response.status == 201 && Conceals(hasher) && |hasher.hash(SaltRounds, salt, payload.password.text)| <= MaxPasswordLength ==>
      store.rows[|store.rows| - 1].password != payload.password.text
  {
    if verb == OptionsMethod {
      return Preflight;
    }
    if !payload.Credentials? {
      return InternalServerError;
    }
    var email, password := payload.email, payload.password;
    if !Truthy(email) || !Truthy(password) {
      return FieldsRequired;
    }
    if fault == SelectFails {
      return InternalServerError;
    }
    var existing := store.Select(Parameter(email));
    if existing.None? {
      return InternalServerError;
    }
    if |existing.value| > 0 {
      return AlreadyRegistered;
    }
    var digest := hasher.hash(SaltRounds, salt, password.text);
    var inserted := store.Insert(Parameter(email), digest, now, fault != InsertFails);
    if inserted.None? {
      return InternalServerError;
    }
    response := Created(inserted.value.email);
  }
}
