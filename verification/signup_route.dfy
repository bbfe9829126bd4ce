/** The signup route under `api/signup`: a duplicate check and hash-and-insert, with no presence
    check, and "Failed to create account" when an error is thrown. */
module SignupRoute {
  import opened Messages
  import opened Schema
  import opened Hashing
  import opened Database

  const AlreadyRegistered := Response(400, ErrorBody("Email already registered"))
  const CreateFailed := Response(500, ErrorBody("Failed to create account"))

  function Created(email: string): Response {
    Response(201, SignupBody(true, UserView(email)))
  }

  /** The `POST` handler. Fields go to the lookup as they arrive: an empty email is an ordinary key,
      an absent one matches nothing. An absent password makes bcrypt throw, and an absent email makes
      the insert violate NOT NULL; both end in the catch-all 500. */
  method Post(store: UsersTable, hasher: Hasher, payload: Payload, salt: string, now: Timestamp, fault: StoreFault)
    returns (response: Response)
    requires store.Valid()
    modifies store
    ensures store.Valid()
    ensures !payload.Credentials? ==> response == CreateFailed && unchanged(store)
    ensures payload.Credentials? ==>
      var email, password := payload.email, payload.password;
      if fault == SelectFails || (email.Text? && Nul in email.text) then
        response == CreateFailed && unchanged(store)
      else if email.Text? && Lookup(old(store.rows), email.text) != [] then
        response == AlreadyRegistered && unchanged(store)
      else if password.Missing? || email.Missing? then
        response == CreateFailed && unchanged(store)
      else
        var storedEmail := ToVarchar(email.text, MaxEmailLength);
        var storedDigest := ToVarchar(hasher.hash(SaltRounds, salt, password.text), MaxPasswordLength);
        if || fault == InsertFails || storedEmail.None? || storedDigest.None?
           || Lookup(old(store.rows), storedEmail.value) != [] then
          response == CreateFailed && unchanged(store)
        else
          && response == Created(storedEmail.value)
          && store.rows == old(store.rows) + [UserRow(old(store.nextId), storedEmail.value, storedDigest.value, now, now)]
    ensures response.status == 201 && Conceals(hasher) && |hasher.hash(SaltRounds, salt, payload.password.text)| <= MaxPasswordLength ==>
      store.rows[|store.rows| - 1].password != payload.password.text
  {
    if !payload.Credentials? {
      return CreateFailed;
    }
    var email, password := payload.email, payload.password;
    if fault == SelectFails {
      return CreateFailed;
    }
    var existing := store.Select(Parameter(email));
    if existing.None? {
      return CreateFailed;
    }
    if |existing.value| > 0 {
      return AlreadyRegistered;
    }
    if password.Missing? {
      return CreateFailed;
    }
    var digest := hasher.hash(SaltRounds, salt, password.text);
    var inserted := store.Insert(Parameter(email), digest, now, fault != InsertFails);
    if inserted.None? {
      return CreateFailed;
    }
    response := Created(inserted.value.email);
  }
}
