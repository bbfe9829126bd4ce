/** The login route under `api/login`: a read-only lookup by email and a hash comparison. Both
    credential failures answer with one and the same 401. */
module LoginRoute {
  import opened Messages
  import opened Schema
  import opened Hashing

  const InvalidCredentials := Response(401, ErrorBody("Invalid credentials"))
  const LoginFailed := Response(500, ErrorBody("Login failed"))

  function LoginSucceeded(email: string): Response {
    Response(200, LoginBody("Login successful", UserView(email)))
  }

  /** The `post` handler as a function of the table it reads: it only selects, so it cannot change the
      table. The select is `SelectRows` on the email's query parameter; an absent password reaching
      `bcrypt.compare` throws. Every thrown error ends in the catch-all 500. */
  function Post(rows: seq<UserRow>, hasher: Hasher, payload: Payload, fault: StoreFault): (response: Response)
    // Only three answers exist.
    ensures response == InvalidCredentials || response == LoginFailed || response.status == 200
    // An unreadable body or a failed select: 500.
    ensures !payload.Credentials? || fault == SelectFails ==> response == LoginFailed
    // Otherwise the answer follows the lookup and the hash comparison.
    ensures payload.Credentials? && fault != SelectFails ==>
      var email, password := payload.email, payload.password;
      if email.Text? && Nul in email.text then
        response == LoginFailed
      else if email.Missing? || Lookup(rows, email.text) == [] then
        // Unknown email.
        response == InvalidCredentials
      else if password.Missing? then
        // Known email, no password: `bcrypt.compare(undefined, ...)` throws.
        response == LoginFailed
      else if !hasher.compare(password.text, Lookup(rows, email.text)[0].password) then
        // Known email, wrong password: the same answer as an unknown email.
        response == InvalidCredentials
      else
        response == LoginSucceeded(email.text)
    // Against a table whose emails are unique, success is the existence of a row for that email
    // whose digest verifies the password.
    ensures EmailsUnique(rows) ==>
      (response.status == 200 <==>
        && payload.Credentials? && payload.email.Text? && payload.password.Text?
        && fault != SelectFails && Nul !in payload.email.text
        && exists i | 0 <= i < |rows| :: rows[i].email == payload.email.text && hasher.compare(payload.password.text, rows[i].password))
  {
    if !payload.Credentials? || fault == SelectFails then
      LoginFailed
    else
      var email, password := payload.email, payload.password;
      var found := SelectRows(rows, Parameter(email));
      if found.None? then
        LoginFailed
      else
        var users := found.value;
        if |users| == 0 then
          InvalidCredentials
        else if password.Missing? then
          LoginFailed
        else if !hasher.compare(password.text, users[0].password) then
          InvalidCredentials
        else
          assert EmailsUnique(rows) ==> forall i | 0 <= i < |rows| && rows[i].email == email.text :: rows[i] == users[0] by {
            if EmailsUnique(rows) {
              forall i | 0 <= i < |rows| && rows[i].email == email.text ensures rows[i] == users[0] {
                LookupUnique(rows, i);
              }
            }
          }
          LoginSucceeded(users[0].email)
  }

  /** An unknown email and a wrong password for a known one give the very same answer, so a caller
      cannot tell which emails are registered. */
  lemma FailuresIndistinguishable(rows: seq<UserRow>, hasher: Hasher, unknown: string, known: string, guess: string, password: string)
    requires Lookup(rows, unknown) == [] && Nul !in unknown
    requires Lookup(rows, known) != [] && Nul !in known && !hasher.compare(password, Lookup(rows, known)[0].password)
    ensures Post(rows, hasher, Credentials(Text(unknown), Text(guess)), NoFault) == InvalidCredentials
    ensures Post(rows, hasher, Credentials(Text(known), Text(password)), NoFault) == InvalidCredentials
  {
  }

  /** Where the two failures do differ: with the password field absent, a registered email makes
      `bcrypt.compare` throw (500) while an unregistered one is answered 401 before any comparison,
      so the status tells whether an email is registered. */
  lemma MissingPasswordRevealsRegistration(rows: seq<UserRow>, hasher: Hasher, known: string, unknown: string)
    requires Lookup(rows, known) != [] && Nul !in known
    requires Lookup(rows, unknown) == [] && Nul !in unknown
    ensures Post(rows, hasher, Credentials(Text(known), Missing), NoFault) == LoginFailed
    ensures Post(rows, hasher, Credentials(Text(unknown), Missing), NoFault) == InvalidCredentials
    ensures LoginFailed != InvalidCredentials
  {
  }

  /** Round trip: once a row for `email` holding the digest of `password` has been appended to a table
      that did not know `email`, logging in with that pair succeeds, whatever else the table holds. */
  lemma RegisteredPasswordLogsIn(rows: seq<UserRow>, hasher: Hasher, row: UserRow, salt: string, password: string)
    requires Sound(hasher)
    requires Lookup(rows, row.email) == [] && Nul !in row.email
    requires row.password == hasher.hash(SaltRounds, salt, password)
    ensures Post(rows + [row], hasher, Credentials(Text(row.email), Text(password)), NoFault) == LoginSucceeded(row.email)
  {
    LookupAppend(rows, row, row.email);
  }

  /** A row added later for another email does not change how an earlier login is answered. */
  lemma LaterSignupKeepsLogin(rows: seq<UserRow>, hasher: Hasher, row: UserRow, payload: Payload, fault: StoreFault)
    requires payload.Credentials? && payload.email.Text? && payload.email.text != row.email
    ensures Post(rows + [row], hasher, payload, fault) == Post(rows, hasher, payload, fault)
  {
    LookupAppend(rows, row, payload.email.text);
  }
}
