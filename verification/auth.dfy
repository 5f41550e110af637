/** The `register`, `login` and `logout` handlers and the session they manage. */
module Auth {
  import opened Wrappers
  import opened Text
  import opened Schema

  /**
   * `after` is `before` with one more user, `name`, whose stored hash accepts `password`;
   * every earlier user and every task is as it was.
   */
  ghost predicate AddsUser(before: Store, after: Store, name: string, password: string) {
    && after.users.Keys == before.users.Keys + {name}
    && (forall n :: n in before.users ==> after.users[n] == before.users[n])
    && after.users[name].username == name
    && CheckPasswordHash(after.users[name].password, password)
    && after.tasks == before.tasks
  }

  /**
   * POST /register: both fields are required and non-empty, and the username must not
   * be taken (the UNIQUE constraint's IntegrityError). Success stores the salted hash.
   */
  function Register(st: State, verb: Method, username: Option<string>, password: Option<string>, salt: nat): (r: Step)
    ensures r.response == RedirectToLogin <==>
      verb.Post? && Filled(username) && Filled(password) && username.value !in st.db.users
    ensures r.response != RedirectToLogin ==> r.state == st
    ensures verb.Post? && username.Some? && password.Some? && (!Filled(username) || !Filled(password)) ==>
      r.response == Form(RegisterPage, None, Some(MissingCredentials))
    ensures verb.Post? && Filled(username) && Filled(password) && username.value in st.db.users ==>
      r.response == Form(RegisterPage, None, Some(UsernameTaken))
    ensures r.response == RedirectToLogin ==>
      && AddsUser(st.db, r.state.db, username.value, password.value)
      && r.state.db.users[username.value].password == HashPassword(password.value, salt)
      && r.state.session == st.session
    ensures Valid(st) && r.response == RedirectToLogin ==>
      forall n :: n in st.db.users ==> st.db.users[n].id != r.state.db.users[username.value].id
    ensures Valid(st) ==> Valid(r.state)
  {
    if verb.Get? then
      Step(st, Form(RegisterPage, None, None))
    else if username.None? || password.None? then
      Step(st, BadRequest)
    else if !Filled(username) || !Filled(password) then
      Step(st, Form(RegisterPage, None, Some(MissingCredentials)))
    else if username.value in st.db.users then
      Step(st, Form(RegisterPage, None, Some(UsernameTaken)))
    else
      var user := User(st.db.nextUserId, username.value, HashPassword(password.value, salt));
      var db := st.db.(users := st.db.users[username.value := user], nextUserId := st.db.nextUserId + 1);
      Step(st.(db := db), RedirectToLogin)
  }

  /**
   * POST /login: signs in exactly when the username exists and the password checks
   * against its stored hash; nothing in the database changes either way.
   */
  function Login(st: State, verb: Method, username: Option<string>, password: Option<string>): (r: Step)
    ensures r.state.db == st.db
    ensures r.response == RedirectToTasks <==>
      && verb.Post? && Filled(username) && Filled(password)
      && username.value in st.db.users
      && CheckPasswordHash(st.db.users[username.value].password, password.value)
    ensures r.response == RedirectToTasks ==>
      r.state.session == SignedIn(st.db.users[username.value].id, st.db.users[username.value].username)
    ensures r.response != RedirectToTasks ==> r.state.session == st.session
    ensures verb.Post? && username.Some? && password.Some? && (!Filled(username) || !Filled(password)) ==>
      r.response == Form(LoginPage, None, Some(MissingCredentials))
    ensures verb.Post? && Filled(username) && Filled(password) && r.response != RedirectToTasks ==>
      r.response == Form(LoginPage, None, Some(InvalidCredentials))
    ensures Valid(st) ==> Valid(r.state)
  {
    if verb.Get? then
      Step(st, Form(LoginPage, None, None))
    else if username.None? || password.None? then
      Step(st, BadRequest)
    else if !Filled(username) || !Filled(password) then
      Step(st, Form(LoginPage, None, Some(MissingCredentials)))
    else if username.value in st.db.users && CheckPasswordHash(st.db.users[username.value].password, password.value) then
      var user := st.db.users[username.value];
      Step(st.(session := SignedIn(user.id, user.username)), RedirectToTasks)
    else
      Step(st, Form(LoginPage, None, Some(InvalidCredentials)))
  }

  /**
   * GET /logout, behind the login gate: an anonymous request is sent to the login page
   * untouched; a signed-in one loses `user_id` and `username` and goes there too.
   */
  function Logout(st: State): (r: Step)
    ensures r.state.db == st.db
    ensures r.state.session == Anonymous
    ensures r.response == RedirectToLogin
    ensures Valid(st) ==> Valid(r.state)
  {
    if st.session.Anonymous? then
      Step(st, RedirectToLogin)
    else
      Step(st.(session := Anonymous), RedirectToLogin)
  }

  /** Signing out twice is the same as signing out once. */
  lemma LogoutIdempotent(st: State)
    ensures Logout(Logout(st).state) == Logout(st)
  {
  }

  /**
   * A fresh registration can sign in straight away with the same password, as the
   * new user, and with no other password.
   */
  lemma RegisterThenLogin(st: State, username: string, password: string, guess: string, salt: nat)
    requires Valid(st)
    requires Register(st, Post, Some(username), Some(password), salt).response == RedirectToLogin
    ensures
      var registered := Register(st, Post, Some(username), Some(password), salt).state;
      var signIn := Login(registered, Post, Some(username), Some(guess));
      && (signIn.response == RedirectToTasks <==> |guess| > 0 && guess == password)
      && (signIn.response == RedirectToTasks ==>
            signIn.state.session == SignedIn(registered.db.users[username].id, username))
  {
    var registered := Register(st, Post, Some(username), Some(password), salt).state;
    CheckHashedPassword(password, guess, salt);
    assert registered.db.users[username].password == HashPassword(password, salt);
  }

  /** Once a username is registered, registering it again fails whatever the password. */
  lemma RegisterTwiceConflicts(st: State, username: string, password: string, other: string, salt: nat, otherSalt: nat)
    requires Register(st, Post, Some(username), Some(password), salt).response == RedirectToLogin
    requires |other| > 0
    ensures
      var registered := Register(st, Post, Some(username), Some(password), salt).state;
      Register(registered, Post, Some(username), Some(other), otherSalt) ==
        Step(registered, Form(RegisterPage, None, Some(UsernameTaken)))
  {
  }
}
