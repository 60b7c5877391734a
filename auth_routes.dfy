/** `routes/auth_routes.py`: registration, login, profile update, password change and logout.
    Passwords are kept only as the credential the hashing collaborator derives from them. */
module AuthRoutes {
  import opened Types
  import opened Store
  import Validation

  predicate HasUsername(users: map<UserId, User>, username: string) {
    exists id :: id in users && users[id].username == username
  }

  predicate HasEmail(users: map<UserId, User>, email: string) {
    exists id :: id in users && users[id].email == email
  }

  /** `User.query.filter_by(username=username).first()`; usernames are unique. */
  method FindUser(db: Store, username: string) returns (found: Option<UserId>)
    requires db.Valid()
    ensures found.Some? ==> found.value in db.users && db.users[found.value].username == username
    ensures found.None? <==> !HasUsername(db.users, username)
    ensures found.Some? ==> forall id :: id in db.users && db.users[id].username == username ==> id == found.value
  {
    if exists id :: id in db.users && db.users[id].username == username {
      var id :| id in db.users && db.users[id].username == username;
      found := Some(id);
    } else {
      found := None;
    }
  }

  // ---------------------------------------------------------------------------------------------
  // register

  datatype RegisterRequest = RegisterRequest(username: Option<string>, email: Option<string>, password: Option<string>)

  const RegisterFieldsRequired := Response(BAD_REQUEST, "Username, email, and password are required")
  const AlreadyExists := Response(BAD_REQUEST, "Username or email already exists")
  const Registered := Response(CREATED, "User registered successfully")

  /** The checks of `register` before the insert: all three keys, then username, e-mail and
      password validation, the first failure deciding the message. */
  function RegisterInputError(env: Env, req: RegisterRequest): (err: Option<Response>)
    ensures err.None? <==>
              && req.username.Some? && req.email.Some? && req.password.Some?
              && Validation.ValidateUsername(env.sanitizePlainText(req.username.value)).valid
              && Validation.ValidateEmail(env.sanitizePlainText(req.email.value)).valid
              && Validation.StrongPassword(req.password.value)
    ensures req.username.None? || req.email.None? || req.password.None? ==> err == Some(RegisterFieldsRequired)
    ensures err.Some? && err != Some(RegisterFieldsRequired) ==>
              var u := Validation.ValidateUsername(env.sanitizePlainText(req.username.value));
              var e := Validation.ValidateEmail(env.sanitizePlainText(req.email.value));
              var p := Validation.ValidatePassword(req.password.value);
              err.value == Response(BAD_REQUEST,
                if !u.valid then u.message else if !e.valid then e.message else p.message)
    ensures err.Some? ==> err.value.status == BAD_REQUEST
  {
    if req.username.None? || req.email.None? || req.password.None? then Some(RegisterFieldsRequired)
    else
      var u := Validation.ValidateUsername(env.sanitizePlainText(req.username.value));
      var e := Validation.ValidateEmail(env.sanitizePlainText(req.email.value));
      var p := Validation.ValidatePassword(req.password.value);
      if !u.valid then Some(Response(BAD_REQUEST, u.message))
      else if !e.valid then Some(Response(BAD_REQUEST, e.message))
      else if !p.valid then Some(Response(BAD_REQUEST, p.message))
      else None
  }

  /** A user with a fresh id, a new username and a new e-mail keeps the store valid. */
  lemma InsertUserKeepsValid(s: State, u: User)
    requires StateValid(s)
    requires !HasUsername(s.users, u.username) && !HasEmail(s.users, u.email)
    ensures StateValid(s.(users := s.users[s.nextUserId := u], nextUserId := s.nextUserId + 1))
  {
    var users := s.users[s.nextUserId := u];
    assert s.nextUserId !in s.users;
    forall a, b | a in users && b in users && users[a].username == users[b].username ensures a == b {
      if a != s.nextUserId && b != s.nextUserId {
        assert s.users[a].username == s.users[b].username;
      }
    }
    forall a, b | a in users && b in users && users[a].email == users[b].email ensures a == b {
      if a != s.nextUserId && b != s.nextUserId {
        assert s.users[a].email == s.users[b].email;
      }
    }
  }

  /** `db.session.add(user)` and a successful commit. */
  method InsertUser(db: Store, u: User) returns (id: UserId)
    requires db.Valid()
    requires !HasUsername(db.users, u.username) && !HasEmail(db.users, u.email)
    modifies db
    ensures db.Valid()
    ensures id == old(db.nextUserId)
    ensures db.Snapshot() == old(db.Snapshot()).(users := old(db.users)[id := u], nextUserId := id + 1)
  {
    InsertUserKeepsValid(db.Snapshot(), u);
    id := db.nextUserId;
    db.users := db.users[id := u];
    db.nextUserId := db.nextUserId + 1;
  }

  /** `register`: a clash with an existing username or e-mail is refused by the unique columns,
      rolled back, and answered with 400; otherwise an active user is created and a token issued. */
  method Register(db: Store, env: Env, req: RegisterRequest)
    returns (r: Response, created: Option<UserId>, token: Option<string>)
    requires db.Valid()
    modifies db
    ensures db.Valid()
    ensures RegisterInputError(env, req).Some? ==> r == RegisterInputError(env, req).value
    ensures RegisterInputError(env, req).None? ==>
              var username := env.sanitizePlainText(req.username.value);
              var email := env.sanitizePlainText(req.email.value);
              if HasUsername(old(db.users), username) || HasEmail(old(db.users), email) then r == AlreadyExists
              else
                && r == Registered
                && created == Some(old(db.nextUserId))
                && token == Some(env.generateToken(created.value, username))
                && db.Snapshot() == old(db.Snapshot()).(
                     users := old(db.users)[created.value :=
                       User(username, email, env.hashPassword(req.password.value), true, None)],
                     nextUserId := old(db.nextUserId) + 1)
    ensures r != Registered ==> created.None? && token.None? && unchanged(db)
  {
    var err := RegisterInputError(env, req);
    if err.Some? {
      return err.value, None, None;
    }
    var username := env.sanitizePlainText(req.username.value);
    var email := env.sanitizePlainText(req.email.value);
    if (exists id :: id in db.users && db.users[id].username == username)
       || (exists id :: id in db.users && db.users[id].email == email) {
      return AlreadyExists, None, None;
    }
    var id := InsertUser(db, User(username, email, env.hashPassword(req.password.value), true, None));
    r, created, token := Registered, Some(id), Some(env.generateToken(id, username));
  }

  // ---------------------------------------------------------------------------------------------
  // login

  datatype LoginRequest = LoginRequest(username: Option<string>, password: Option<string>)

  const LoginFieldsRequired := Response(BAD_REQUEST, "Username and password are required")
  const BadCredentials := Response(UNAUTHORIZED, "Invalid username or password")
  const Deactivated := Response(UNAUTHORIZED, "Account is deactivated")
  const LoggedIn := Response(OK, "Login successful")

  /** The user a login names, if the password matches its credential. */
  predicate CredentialsMatch(env: Env, users: map<UserId, User>, id: UserId, username: string, password: string) {
    id in users && users[id].username == username && env.checkPassword(users[id].credential, password)
  }

  /** `login`: an unknown username and a wrong password get the same 401; the active flag is
      looked at only once the credentials match; success records the login time `now`. */
  method Login(db: Store, env: Env, req: LoginRequest, now: nat) returns (r: Response, token: Option<string>)
    requires db.Valid()
    modifies db
    ensures db.Valid()
    ensures req.username.None? || req.password.None? ==> r == LoginFieldsRequired
    ensures req.username.Some? && req.password.Some? ==>
              var username := env.sanitizePlainText(req.username.value);
              if !exists id :: CredentialsMatch(env, old(db.users), id, username, req.password.value) then
                r == BadCredentials
              else
                exists id :: && CredentialsMatch(env, old(db.users), id, username, req.password.value)
                             && if !old(db.users[id]).isActive then r == Deactivated
                                else && r == LoggedIn
                                     && token == Some(env.generateToken(id, username))
                                     && db.Snapshot() == old(db.Snapshot()).(
                                          users := old(db.users)[id := old(db.users[id]).(lastLogin := Some(now))])
    ensures r != LoggedIn ==> token.None? && unchanged(db)
  {
    if req.username.None? || req.password.None? {
      return LoginFieldsRequired, None;
    }
    var username := env.sanitizePlainText(req.username.value);
    var found := FindUser(db, username);
    if found.None? || !env.checkPassword(db.users[found.value].credential, req.password.value) {
      return BadCredentials, None;
    }
    var id := found.value;
    var user := db.users[id];
    assert CredentialsMatch(env, db.users, id, username, req.password.value);
    if !user.isActive {
      return Deactivated, None;
    }
    db.users := db.users[id := user.(lastLogin := Some(now))];
    r, token := LoggedIn, Some(env.generateToken(id, user.username));
  }

  // ---------------------------------------------------------------------------------------------
  // update_profile, change_password, logout (the caller is the authenticated user)

  const EmailTaken := Response(BAD_REQUEST, "Email already exists")
  const ProfileUpdated := Response(OK, "Profile updated successfully")

  /** Giving `caller` an address no other user holds keeps the store valid. */
  lemma SetEmailKeepsValid(s: State, caller: UserId, email: string)
    requires StateValid(s) && caller in s.users
    requires forall id :: id in s.users && id != caller ==> s.users[id].email != email
    ensures StateValid(s.(users := s.users[caller := s.users[caller].(email := email)]))
  {
    var users := s.users[caller := s.users[caller].(email := email)];
    forall a, b | a in users && b in users && users[a].username == users[b].username ensures a == b {
      assert users[a].username == s.users[a].username && users[b].username == s.users[b].username;
    }
    forall a, b | a in users && b in users && users[a].email == users[b].email ensures a == b {
      if a != caller && b != caller {
        assert s.users[a].email == s.users[b].email;
      }
    }
  }

  /** What `update_profile` by `caller` answers on store `s`, and the store `s'` it leaves: only
      the e-mail changes, and only when the body has the key. The unique column refuses an
      address another user holds. */
  ghost predicate UpdateProfileOutcome(s: State, s': State, env: Env, caller: UserId, email: Option<string>,
                                       r: Response)
    requires caller in s.users
  {
    if email.None? then r == ProfileUpdated && s' == s
    else
      var e := env.sanitizePlainText(email.value);
      var v := Validation.ValidateEmail(e);
      if !v.valid then r == Response(BAD_REQUEST, v.message) && s' == s
      else if exists id :: id in s.users && id != caller && s.users[id].email == e then r == EmailTaken && s' == s
      else r == ProfileUpdated && s' == s.(users := s.users[caller := s.users[caller].(email := e)])
  }

  /** `update_profile`. */
  method UpdateProfile(db: Store, env: Env, caller: UserId, email: Option<string>) returns (r: Response)
    requires db.Valid() && caller in db.users
    modifies db
    ensures db.Valid()
    ensures UpdateProfileOutcome(old(db.Snapshot()), db.Snapshot(), env, caller, email, r)
  {
    if email.None? {
      return ProfileUpdated;
    }
    var e := env.sanitizePlainText(email.value);
    var v := Validation.ValidateEmail(e);
    if !v.valid {
      return Response(BAD_REQUEST, v.message);
    }
    if exists id :: id in db.users && id != caller && db.users[id].email == e {
      return EmailTaken;
    }
    SetEmailKeepsValid(db.Snapshot(), caller, e);
    db.users := db.users[caller := db.users[caller].(email := e)];
    r := ProfileUpdated;
  }

  const PasswordFieldsRequired := Response(BAD_REQUEST, "Current password and new password are required")
  const WrongPassword := Response(UNAUTHORIZED, "Current password is incorrect")
  const PasswordChanged := Response(OK, "Password changed successfully")

  /** What `change_password` by `caller` answers and leaves: the current password is checked
      before the new one is validated; only success replaces the credential. */
  ghost predicate ChangePasswordOutcome(s: State, s': State, env: Env, caller: UserId, current: Option<string>,
                                        replacement: Option<string>, r: Response)
    requires caller in s.users
  {
    if current.None? || replacement.None? then r == PasswordFieldsRequired && s' == s
    else if !env.checkPassword(s.users[caller].credential, current.value) then r == WrongPassword && s' == s
    else if !Validation.StrongPassword(replacement.value) then
      r == Response(BAD_REQUEST, Validation.ValidatePassword(replacement.value).message) && s' == s
    else
      && r == PasswordChanged
      && s' == s.(users := s.users[caller := s.users[caller].(credential := env.hashPassword(replacement.value))])
  }

  /** `change_password`. */
  method ChangePassword(db: Store, env: Env, caller: UserId, current: Option<string>, replacement: Option<string>)
    returns (r: Response)
    requires db.Valid() && caller in db.users
    modifies db
    ensures db.Valid()
    ensures ChangePasswordOutcome(old(db.Snapshot()), db.Snapshot(), env, caller, current, replacement, r)
  {
    if current.None? || replacement.None? {
      return PasswordFieldsRequired;
    }
    if !env.checkPassword(db.users[caller].credential, current.value) {
      return WrongPassword;
    }
    var v := Validation.ValidatePassword(replacement.value);
    if !v.valid {
      return Response(BAD_REQUEST, v.message);
    }
    db.users := db.users[caller := db.users[caller].(credential := env.hashPassword(replacement.value))];
    r := PasswordChanged;
  }

  const LoggedOut := Response(OK, "Logout successful")

  /** `logout`: tokens are stateless, so the store is only read, never written. */
  method Logout(db: Store) returns (r: Response)
    ensures r == LoggedOut
  {
    r := LoggedOut;
  }
}
