/** The authentication blueprint: registration, login, loading the logged-in user at the start
    of every request, logout, and the login_required guard for other views. */
module Auth {
  import opened Wrappers
  import opened Hashing
  import opened UserTable

  /** The session key under which login stores the user's id. */
  const UserIdKey: string := "user_id"

  /** The error conditions the two forms report, each flashed as one message. */
  datatype Message =
    | UsernameRequired
    | PasswordRequired
    | AlreadyRegistered(username: string)
    | IncorrectUsername
    | IncorrectPassword

  /** The text flashed for each message. */
  function Text(m: Message): string
  {
    match m
    case UsernameRequired => "Username is required."
    case PasswordRequired => "Password is required."
    case AlreadyRegistered(name) => "User " + name + " is already registered."
    case IncorrectUsername => "Incorrect username."
    case IncorrectPassword => "Incorrect password."
  }

  /** Distinct errors are flashed as distinct texts, so the flashed text names the failed check. */
  lemma {:induction false} TextInjective(m1: Message, m2: Message)
    ensures m1 != m2 ==> Text(m1) != Text(m2)
  {
    if m1 != m2 {
      if m1.AlreadyRegistered? && m2.AlreadyRegistered? {
        var a, b := m1.username, m2.username;
        if |a| == |b| {
          assert Text(m1)[5..5 + |a|] == a && Text(m2)[5..5 + |b|] == b;
        }
      } else if m1.AlreadyRegistered? || m2.AlreadyRegistered? {
        assert Text(m1)[4] != Text(m2)[4];
      }
    }
  }

  datatype Template = RegisterPage /* auth/register.html */ | LoginPage /* auth/login.html */

  datatype Endpoint = AuthLogin /* auth.login */ | Index /* index */

  datatype Response = Render(template: Template) | Redirect(endpoint: Endpoint)

  /** A request to one of the two form views; a POST carries both form fields. */
  datatype Request = Get | Post(username: string, password: string)

  /** The checks register runs on a submitted form, in order; None when every check passes. */
  function RegisterError(users: seq<UserRow>, username: string, password: string): (e: Option<Message>)
    ensures e == Some(UsernameRequired) <==> username == []
    ensures e == Some(PasswordRequired) <==> username != [] && password == []
    ensures e == Some(AlreadyRegistered(username)) <==>
              username != [] && password != [] && HasUsername(users, username)
    ensures e.None? <==> username != [] && password != [] && !HasUsername(users, username)
  {
    if username == [] then Some(UsernameRequired)
    else if password == [] then Some(PasswordRequired)
    else if FindByUsername(users, username).Some? then Some(AlreadyRegistered(username))
    else None
  }

  /** The checks login runs on a submitted form: the row it logs in as, or the error. */
  function LoginCheck(users: seq<UserRow>, h: Hasher, username: string, password: string)
    : (r: Result<UserRow, Message>)
    ensures r == Failure(IncorrectUsername) <==> !HasUsername(users, username)
    ensures r.Failure? ==> r.error == IncorrectUsername || r.error == IncorrectPassword
    ensures r.Success? ==>
              r.value in users && r.value.username == username && h.check(r.value.passwordHash, password)
    ensures TableValid(users) ==>
              (r == Failure(IncorrectPassword) <==>
               exists row :: row in users && row.username == username && !h.check(row.passwordHash, password))
  {
    var user := FindByUsername(users, username);
    if user.None? then Failure(IncorrectUsername)
    else
      assert TableValid(users) ==> user == FindByUsername(users, user.value.username) by {
        if TableValid(users) { FindsUniqueRow(users, user.value); }
      }
      if !h.check(user.value.passwordHash, password) then Failure(IncorrectPassword)
      else Success(user.value)
  }

  /** A user that registration just inserted passes the login checks with the same password,
      and logs in as exactly the inserted row. */
  lemma RegisteredUserCanLogIn(users: seq<UserRow>, h: Hasher, salt: Salt, id: nat, username: string, password: string)
    requires Sound(h) && TableValid(users) && !HasId(users, id)
    requires RegisterError(users, username, password).None?
    ensures LoginCheck(users + [UserRow(id, username, h.hash(salt, password))], h, username, password)
            == Success(UserRow(id, username, h.hash(salt, password)))
  {
  }

  /** The whole state one request of the application can see. */
  datatype AppState = AppState(
    users: seq<UserRow>, session: map<string, nat>, currentUser: Option<UserRow>, flashes: seq<string>)

  /** The application as the authentication views see it: the user table of the store, the
      browser's session, the request's identity (`g.user`) and the messages flashed so far. */
  class AuthApp {
    const hasher: Hasher
    var users: seq<UserRow>
    var session: map<string, nat>
    var currentUser: Option<UserRow>
    var flashes: seq<string>

    ghost predicate Valid()
      reads this
    {
      TableValid(users)
    }

    function Snapshot(): AppState
      reads this
    {
      AppState(users, session, currentUser, flashes)
    }

    constructor (hasher: Hasher, users: seq<UserRow>, session: map<string, nat>)
      requires TableValid(users)
      ensures Valid()
      ensures this.hasher == hasher && this.users == users && this.session == session
      ensures currentUser == None && flashes == []
    {
      this.hasher := hasher;
      this.users := users;
      this.session := session;
      currentUser := None;
      flashes := [];
    }

    /** The register view. On a valid POST it inserts exactly one row holding the hash of the
        password and redirects to the login view; otherwise it flashes one error (on POST) and
        renders the form, leaving the table as it was. */
    method Register(req: Request, salt: Salt, freshId: nat) returns (resp: Response)
      requires Valid()
      requires !HasId(users, freshId)  // the id the store assigns to a new row is unused
      modifies this
      ensures Valid()
      ensures session == old(session) && currentUser == old(currentUser)
      ensures req.Get? ==> resp == Render(RegisterPage) && users == old(users) && flashes == old(flashes)
      ensures req.Post? && RegisterError(old(users), req.username, req.password).Some? ==>
                resp == Render(RegisterPage) && users == old(users) &&
                flashes == old(flashes) + [Text(RegisterError(old(users), req.username, req.password).value)]
      ensures req.Post? && RegisterError(old(users), req.username, req.password).None? ==>
                resp == Redirect(AuthLogin) && flashes == old(flashes) &&
                users == old(users) + [UserRow(freshId, req.username, hasher.hash(salt, req.password))]
    {
      if req.Post? {
        var error := RegisterError(users, req.username, req.password);
        if error.None? {
          var row := UserRow(freshId, req.username, hasher.hash(salt, req.password));
          InsertKeepsValid(users, row);
          users := users + [row];
          return Redirect(AuthLogin);
        }
        flashes := flashes + [Text(error.value)];
      }
      resp := Render(RegisterPage);
    }

    /** The login view. On a POST whose credentials check out it replaces the whole session by
        one holding only the user's id and redirects to the index; otherwise it flashes one error
        (on POST), renders the form and leaves the session as it was. */
    method Login(req: Request) returns (resp: Response)
      requires Valid()
      modifies this`session, this`flashes
      ensures req.Get? ==> resp == Render(LoginPage) && session == old(session) && flashes == old(flashes)
      ensures req.Post? && LoginCheck(users, hasher, req.username, req.password).Failure? ==>
                resp == Render(LoginPage) && session == old(session) &&
                flashes == old(flashes) + [Text(LoginCheck(users, hasher, req.username, req.password).error)]
      ensures req.Post? && LoginCheck(users, hasher, req.username, req.password).Success? ==>
                resp == Redirect(Index) && flashes == old(flashes) &&
                session == map[UserIdKey := LoginCheck(users, hasher, req.username, req.password).value.id]
    {
      if req.Post? {
        var checked := LoginCheck(users, hasher, req.username, req.password);
        if checked.Success? {
          session := map[];
          session := session[UserIdKey := checked.value.id];
          return Redirect(Index);
        }
        flashes := flashes + [Text(checked.error)];
      }
      resp := Render(LoginPage);
    }

    /** Runs before every request: the identity is the row whose id the session holds, or none
        when the session holds no id or no row has it. */
    method LoadLoggedInUser()
      modifies this`currentUser
      ensures UserIdKey !in session ==> currentUser == None
      ensures UserIdKey in session ==>
                (currentUser.None? <==> !HasId(users, session[UserIdKey]))
      ensures currentUser.Some? ==> currentUser.value in users && currentUser.value.id == session[UserIdKey]
    {
      if UserIdKey !in session {
        currentUser := None;
      } else {
        currentUser := FindById(users, session[UserIdKey]);
      }
    }

    /** The logout view: the session is emptied, whatever it held, and the index is shown. */
    method Logout() returns (resp: Response)
      modifies this`session
      ensures session == map[] && resp == Redirect(Index)
    {
      session := map[];
      resp := Redirect(Index);
    }
  }

  /** URL arguments a view is called with. */
  type Kwargs = map<string, string>

  /** A view: from its URL arguments and whatever state it acts on, a response and the new state. */
  type View<!S> = (Kwargs, S) -> (Response, S)

  /** login_required: the wrapped view reads the request's identity; with none it redirects to
      the login view and leaves the state untouched, whatever the view would have done;
      otherwise it returns what the view returns. */
  function LoginRequired<S(!new)>(view: View<S>): (wrapped: (Option<UserRow>, Kwargs, S) -> (Response, S))
    ensures forall kwargs, s :: wrapped(None, kwargs, s) == (Redirect(AuthLogin), s)
    ensures forall user: Option<UserRow>, kwargs, s :: user.Some? ==> wrapped(user, kwargs, s) == view(kwargs, s)
  {
    (user: Option<UserRow>, kwargs: Kwargs, s: S) =>
      if user.None? then (Redirect(AuthLogin), s) else view(kwargs, s)
  }
}
