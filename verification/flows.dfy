/** Signup and login used together against one table, as a browser session would use them. */
module Flows {
  import opened Wrappers
  import opened Messages
  import opened Schema
  import opened Hashing
  import opened Database
  import SignupApi
  import SignupRoute
  import LoginRoute

  /** Register through the `pages/api` endpoint, then log in with the same pair. A 201 from the
      first guarantees a 200 from the second, unless the email was longer than its column: the
      stored email is then the cut one, and the original is answered as unknown. A duplicate leaves
      the table exactly as it was. The digest must fit its column (a bcrypt digest is 60 characters). */
  method SignupThenLogin(store: UsersTable, hasher: Hasher, email: string, password: string, salt: string, now: Timestamp)
    returns (signup: Response, login: Response)
    requires store.Valid()
    requires Sound(hasher)
    requires |hasher.hash(SaltRounds, salt, password)| <= MaxPasswordLength
    modifies store
    ensures store.Valid()
    ensures signup.status == 201 && |email| <= MaxEmailLength ==> login == LoginRoute.LoginSucceeded(email)
    ensures signup.status == 201 && |email| > MaxEmailLength ==> login == LoginRoute.InvalidCredentials
    ensures signup == SignupApi.AlreadyRegistered ==> unchanged(store)
  {
    var payload := Credentials(Text(email), Text(password));
    signup := SignupApi.Post(store, hasher, PostMethod, payload, salt, now, NoFault);
    if signup.status == 201 {
      if |email| <= MaxEmailLength {
        LoginRoute.RegisteredPasswordLogsIn(old(store.rows), hasher, store.rows[|store.rows| - 1], salt, password);
      } else {
        assert Lookup(store.rows, email) == [] by {
          assert forall i | 0 <= i < |store.rows| :: Fits(store.rows[i]);
        }
      }
    }
    login := LoginRoute.Post(store.rows, hasher, payload, NoFault);
  }

  /** The same round trip through the `api/signup` route. */
  method RouteSignupThenLogin(store: UsersTable, hasher: Hasher, email: string, password: string, salt: string, now: Timestamp)
    returns (signup: Response, login: Response)
    requires store.Valid()
    requires Sound(hasher)
    requires |hasher.hash(SaltRounds, salt, password)| <= MaxPasswordLength
    modifies store
    ensures store.Valid()
    ensures signup.status == 201 && |email| <= MaxEmailLength ==> login == LoginRoute.LoginSucceeded(email)
    ensures signup.status == 201 && |email| > MaxEmailLength ==> login == LoginRoute.InvalidCredentials
  {
    var payload := Credentials(Text(email), Text(password));
    signup := SignupRoute.Post(store, hasher, payload, salt, now, NoFault);
    if signup.status == 201 {
      if |email| <= MaxEmailLength {
        LoginRoute.RegisteredPasswordLogsIn(old(store.rows), hasher, store.rows[|store.rows| - 1], salt, password);
      } else {
        assert Lookup(store.rows, email) == [] by {
          assert forall i | 0 <= i < |store.rows| :: Fits(store.rows[i]);
        }
      }
    }
    login := LoginRoute.Post(store.rows, hasher, payload, NoFault);
  }

  /** Logging in against a table holding the single row of "a@b.com": the right password, a wrong one,
      and an unknown email. */
  lemma OneRowLogins(hasher: Hasher, salt: string, now: Timestamp)
    requires Sound(hasher)
    requires !hasher.compare("wrong", hasher.hash(SaltRounds, salt, "Secret1!"))
    ensures var rows := [UserRow(1, "a@b.com", hasher.hash(SaltRounds, salt, "Secret1!"), now, now)];
      && LoginRoute.Post(rows, hasher, Credentials(Text("a@b.com"), Text("Secret1!")), NoFault) == LoginRoute.LoginSucceeded("a@b.com")
      && LoginRoute.Post(rows, hasher, Credentials(Text("a@b.com"), Text("wrong")), NoFault) == LoginRoute.InvalidCredentials
      && LoginRoute.Post(rows, hasher, Credentials(Text("nobody@x.com"), Text("x")), NoFault) == LoginRoute.InvalidCredentials
  {
  }

  /** A session on a fresh table: register, register again, log in right, log in wrong, log in as a
      stranger. The hasher must verify its own digests, reject "wrong", and produce a digest that
      fits the column (a bcrypt digest is 60 characters drawn from `./0-9A-Za-z$`). */
  method Walkthrough(hasher: Hasher, salt: string, now: Timestamp)
    returns (first: Response, second: Response, right: Response, wrong: Response, stranger: Response)
    requires Sound(hasher)
    requires |hasher.hash(SaltRounds, salt, "Secret1!")| <= MaxPasswordLength && Nul !in hasher.hash(SaltRounds, salt, "Secret1!")
    requires !hasher.compare("wrong", hasher.hash(SaltRounds, salt, "Secret1!"))
    ensures first == Response(201, SignupBody(true, UserView("a@b.com")))
    ensures second == Response(400, ErrorBody("Email already registered"))
    ensures right == Response(200, LoginBody("Login successful", UserView("a@b.com")))
    ensures wrong == Response(401, ErrorBody("Invalid credentials"))
    ensures stranger == wrong
  {
    var store := new UsersTable();
    var account := Credentials(Text("a@b.com"), Text("Secret1!"));
    var digest := hasher.hash(SaltRounds, salt, "Secret1!");
    var row := UserRow(1, "a@b.com", digest, now, now);
    assert Truthy(account.email) && Truthy(account.password);
    assert Nul !in "a@b.com";
    assert ToVarchar("a@b.com", MaxEmailLength) == Some("a@b.com");
    assert ToVarchar(digest, MaxPasswordLength) == Some(digest);
    first := SignupApi.Post(store, hasher, PostMethod, account, salt, now, NoFault);
    assert store.rows == [row];
    LookupUnique(store.rows, 0);
    second := SignupApi.Post(store, hasher, PostMethod, account, salt, now, NoFault);
    OneRowLogins(hasher, salt, now);
    right := LoginRoute.Post(store.rows, hasher, account, NoFault);
    wrong := LoginRoute.Post(store.rows, hasher, Credentials(Text("a@b.com"), Text("wrong")), NoFault);
    stranger := LoginRoute.Post(store.rows, hasher, Credentials(Text("nobody@x.com"), Text("x")), NoFault);
  }
}
