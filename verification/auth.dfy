/**
 The credential store and the `register` / `login` handlers of the portal.

 The store is the module-level `users` dict: username to {email, password
 digest}. Each handler is a pure transition from the store and a request to the
 next store and a response; a response names the page to show together with the
 message and its kind, and the page text itself is assembled in `App`.
 */
module Auth {
  import opened Hashing

  /** One stored account. */
  datatype User = User(email: string, passwordHash: string)

  /** The in-memory store, keyed by username. */
  type Users = map<string, User>

  /** Passwords shorter than this are refused at registration. */
  const MinPasswordLength: nat := 4

  const Success: string := "success"
  const Error: string := "error"

  const DuplicateMessage: string := "Username already exists."
  const TooShortMessage: string := "Password too short (min 4 chars)."
  const RegisteredMessage: string := "Registered! Please log in."
  const InvalidMessage: string := "Invalid username or password."

  /** The greeting shown on the dashboard after a successful login (app.py
      line 37). `LoginUser`, `RegisterThenLogin` and `App.LoginWelcomesFixed`
      state where it appears. */
  function WelcomeMessage(username: string): string {
    "Welcome back, " + username + "!"
  }

  /** The pages a handler can answer with. */
  datatype PageId = IndexPage | LoginPage | RegisterPage | DashboardPage

  /** A handler's answer: a page with an optional message and its kind, an
      absent form field (`request.form[...]` raises; `App.Serve` says what the
      client gets), or Flask's 405 answer for a method the route does not accept. */
  datatype Response =
    | Show(page: PageId, message: string, kind: string)
    | MissingField(field: string)
    | NotAllowed

  /** An HTTP request as far as the handlers look at it. */
  datatype Request = Get | Post(form: map<string, string>)

  /** The routes with logic behind them. */
  datatype Route = Home | LoginRoute | RegisterRoute

  /** One handled request: the store afterwards and the answer. */
  datatype Step = Step(users: Users, response: Response)

  /** A page with no message. */
  function Blank(page: PageId): Response {
    Show(page, "", "")
  }

  /** The decision of a POST to `/register` once the three fields are read:
      duplicate username first, then password length, then the insert. */
  function RegisterUser(users: Users, h: Hasher, username: string, email: string, password: string): (r: Step)
    ensures users.Keys <= r.users.Keys <= users.Keys + {username}
    ensures forall k :: k in users ==> r.users[k] == users[k]
    ensures r.users != users <==> r.response == Show(LoginPage, RegisteredMessage, Success)
  {
    if username in users then
      Step(users, Show(RegisterPage, DuplicateMessage, Error))
    else if |password| < MinPasswordLength then
      Step(users, Show(RegisterPage, TooShortMessage, Error))
    else
      Step(users[username := User(email, h.generate(password))], Show(LoginPage, RegisteredMessage, Success))
  }

  /** The `/register` handler: GET shows the form, POST reads `username`,
      `email` and `password` (in that order) and registers. */
  function Register(users: Users, h: Hasher, req: Request): (r: Step)
    ensures forall k :: k in users ==> k in r.users && r.users[k] == users[k]
    ensures r.users != users ==> req.Post? && r.response == Show(LoginPage, RegisteredMessage, Success)
  {
    match req
    case Get => Step(users, Blank(RegisterPage))
    case Post(form) =>
      if "username" !in form then Step(users, MissingField("username"))
      else if "email" !in form then Step(users, MissingField("email"))
      else if "password" !in form then Step(users, MissingField("password"))
      else RegisterUser(users, h, form["username"], form["email"], form["password"])
  }

  /** The decision of a POST to `/login` once the two fields are read. */
  function LoginUser(users: Users, h: Hasher, username: string, password: string): (r: Response)
    ensures r == Show(DashboardPage, WelcomeMessage(username), Success)
         || r == Show(LoginPage, InvalidMessage, Error)
  {
    if username in users && h.check(users[username].passwordHash, password) then
      Show(DashboardPage, WelcomeMessage(username), Success)
    else
      Show(LoginPage, InvalidMessage, Error)
  }

  /** The `/login` handler: GET shows the form, POST reads `username` and
      `password` (in that order) and checks them. The store is only read. */
  function Login(users: Users, h: Hasher, req: Request): (r: Step)
    ensures r.users == users
    ensures r.response.Show? && r.response.page == DashboardPage ==>
              req.Post? && "username" in req.form && req.form["username"] in users
  {
    match req
    case Get => Step(users, Blank(LoginPage))
    case Post(form) =>
      if "username" !in form then Step(users, MissingField("username"))
      else if "password" !in form then Step(users, MissingField("password"))
      else Step(users, LoginUser(users, h, form["username"], form["password"]))
  }

  /** Dispatch on the route; `/` accepts GET only. */
  function Handle(users: Users, h: Hasher, route: Route, req: Request): (r: Step)
    ensures forall k :: k in users ==> k in r.users && r.users[k] == users[k]
    ensures route != RegisterRoute ==> r.users == users
  {
    match route
    case Home => Step(users, if req.Get? then Blank(IndexPage) else NotAllowed)
    case LoginRoute => Login(users, h, req)
    case RegisterRoute => Register(users, h, req)
  }

  /** The store after serving `calls` one at a time, in order, starting from
      `users`. Accounts are created but never updated or deleted. Concurrent
      requests, which the threaded server allows, are not modelled. */
  function Run(users: Users, h: Hasher, calls: seq<(Route, Request)>): (r: Users)
    ensures forall k :: k in users ==> k in r && r[k] == users[k]
    ensures |r| <= |users| + |calls|
    decreases |calls|
  {
    if |calls| == 0 then users
    else
      var next := Handle(users, h, calls[0].0, calls[0].1).users;
      HandleAddsAtMostOne(users, h, calls[0].0, calls[0].1);
      Run(next, h, calls[1..])
  }

  /** One request adds at most one account. */
  lemma HandleAddsAtMostOne(users: Users, h: Hasher, route: Route, req: Request)
    ensures |Handle(users, h, route, req).users| <= |users| + 1
  {
    var r := Handle(users, h, route, req);
    if r.users != users {
      assert route == RegisterRoute && req.Post?;
      var u := req.form["username"];
      assert r.users.Keys <= users.Keys + {u};
      assert |users.Keys + {u}| <= |users.Keys| + 1;
      SubsetCard(r.users.Keys, users.Keys + {u});
    }
  }

  /** A subset is no larger than its superset. */
  lemma SubsetCard<T>(a: set<T>, b: set<T>)
    requires a <= b
    ensures |a| <= |b|
  {
    assert b == a + (b - a);
  }

  /** A taken username is refused with "Username already exists." whatever the
      password, even one too short, and the store, the original record
      included, is left exactly as it was. */
  lemma RegisterDuplicate(users: Users, h: Hasher, username: string, email: string, password: string)
    requires username in users
    ensures RegisterUser(users, h, username, email, password).users == users
    ensures RegisterUser(users, h, username, email, password).users[username] == users[username]
    ensures RegisterUser(users, h, username, email, password).response
         == Show(RegisterPage, "Username already exists.", "error")
  {
  }

  /** A new username with a password shorter than 4 characters is refused with
      "Password too short (min 4 chars)." and the store is unchanged. */
  lemma RegisterTooShort(users: Users, h: Hasher, username: string, email: string, password: string)
    requires username !in users && |password| < 4
    ensures RegisterUser(users, h, username, email, password)
         == Step(users, Show(RegisterPage, "Password too short (min 4 chars).", "error"))
  {
  }

  /** A successful registration inserts exactly one account, holding the email
      and the digest of the password, and leaves every other account alone. */
  lemma RegisterInserts(users: Users, h: Hasher, username: string, email: string, password: string)
    requires username !in users && |password| >= 4
    ensures var r := RegisterUser(users, h, username, email, password);
      && r.response == Show(LoginPage, "Registered! Please log in.", "success")
      && r.users.Keys == users.Keys + {username}
      && |r.users| == |users| + 1
      && r.users[username] == User(email, h.generate(password))
      && forall k :: k in users ==> r.users[k] == users[k]
  {
  }

  /** Registering a username twice: the second attempt reports the duplicate
      and the first record survives unmodified. */
  lemma RegisterTwice(users: Users, h: Hasher, username: string, email1: string, password1: string,
                      email2: string, password2: string)
    requires username !in users && |password1| >= 4
    ensures var first := RegisterUser(users, h, username, email1, password1);
            var second := RegisterUser(first.users, h, username, email2, password2);
      && second.response == Show(RegisterPage, DuplicateMessage, Error)
      && second.users[username] == User(email1, h.generate(password1))
  {
  }

  /** Login succeeds exactly when the account exists and the password checks
      against its stored digest. */
  lemma LoginSucceedsIff(users: Users, h: Hasher, username: string, password: string)
    ensures LoginUser(users, h, username, password).page == DashboardPage
        <==> username in users && h.check(users[username].passwordHash, password)
  {
  }

  /** Every failed login gets the same answer, "Invalid username or password."
      on the login page, whichever account or store it was tried against: an
      unknown username cannot be told apart from a wrong password. */
  lemma LoginFailuresIndistinguishable(users1: Users, users2: Users, h: Hasher,
                                       username1: string, password1: string,
                                       username2: string, password2: string)
    requires LoginUser(users1, h, username1, password1).page != DashboardPage
    requires LoginUser(users2, h, username2, password2).page != DashboardPage
    ensures LoginUser(users1, h, username1, password1) == LoginUser(users2, h, username2, password2)
    ensures LoginUser(users1, h, username1, password1) == Show(LoginPage, "Invalid username or password.", "error")
  {
  }

  /** The concrete case: an unknown user and a known user with a wrong
      password are answered identically. */
  lemma UnknownUserLooksLikeWrongPassword(users: Users, h: Hasher, unknown: string, anyPassword: string,
                                          known: string, wrongPassword: string)
    requires unknown !in users
    requires known in users && !h.check(users[known].passwordHash, wrongPassword)
    ensures LoginUser(users, h, unknown, anyPassword) == LoginUser(users, h, known, wrongPassword)
  {
    LoginFailuresIndistinguishable(users, users, h, unknown, anyPassword, known, wrongPassword);
  }

  /** With a sound hasher, registering and then logging in with the same
      password succeeds. */
  lemma RegisterThenLogin(users: Users, h: Hasher, username: string, email: string, password: string)
    requires Sound(h)
    requires username !in users && |password| >= 4
    ensures var after := RegisterUser(users, h, username, email, password).users;
      LoginUser(after, h, username, password) == Show(DashboardPage, WelcomeMessage(username), Success)
  {
    var after := RegisterUser(users, h, username, email, password).users;
    assert after[username].passwordHash == h.generate(password);
  }

  /** Once an account logs in, it keeps logging in with the same password after
      any further sequence of requests: no request updates or removes an account. */
  lemma LoginPersists(users: Users, h: Hasher, calls: seq<(Route, Request)>,
                       username: string, password: string)
    requires LoginUser(users, h, username, password).page == DashboardPage
    ensures LoginUser(Run(users, h, calls), h, username, password).page == DashboardPage
  {
    var after := Run(users, h, calls);
    assert username in users;
    assert after[username] == users[username];
  }
}
