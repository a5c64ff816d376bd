/** Request sequences a browser can drive through the authentication views, each run on a fresh
    application object over an arbitrary valid user table and session. */
module Scenarios {
  import opened Wrappers
  import opened Hashing
  import opened UserTable
  import opened Auth

  /** Registering a new username, logging in with the same password and starting the next
      request: registration redirects to the login view, login redirects to the index, the next
      request is authenticated as the new row, and a guarded view then runs. */
  method RegisterThenLogin<S(!new)>(h: Hasher, users: seq<UserRow>, session: map<string, nat>,
                                    salt: Salt, freshId: nat, username: string, password: string,
                                    view: View<S>, kwargs: Kwargs, s: S)
    returns (registered: Response, loggedIn: Response, identity: Option<UserRow>, guarded: (Response, S))
    requires Sound(h) && TableValid(users) && !HasId(users, freshId)
    requires username != [] && password != [] && !HasUsername(users, username)
    ensures registered == Redirect(AuthLogin) && loggedIn == Redirect(Index)
    ensures identity == Some(UserRow(freshId, username, h.hash(salt, password)))
    ensures guarded == view(kwargs, s)
  {
    var app := new AuthApp(h, users, session);
    registered := app.Register(Post(username, password), salt, freshId);
    var row := UserRow(freshId, username, h.hash(salt, password));
    assert app.users == users + [row];
    RegisteredUserCanLogIn(users, h, salt, freshId, username, password);
    loggedIn := app.Login(Post(username, password));
    app.LoadLoggedInUser();
    FindsUniqueRow(app.users, row);
    identity := app.currentUser;
    guarded := LoginRequired(view)(identity, kwargs, s);
  }

  /** Logging out twice leaves the same state and gives the same response as logging out once. */
  method LogoutTwice(h: Hasher, users: seq<UserRow>, session: map<string, nat>)
    returns (once: AppState, twice: AppState, first: Response, second: Response)
    requires TableValid(users)
    ensures once == twice && first == second
    ensures once == AppState(users, map[], None, [])
  {
    var app := new AuthApp(h, users, session);
    first := app.Logout();
    once := app.Snapshot();
    second := app.Logout();
    twice := app.Snapshot();
  }

  /** After logout the next request is anonymous, so a guarded view redirects to the login view
      and its state is left exactly as it was. */
  method LogoutThenGuardedView<S(!new)>(h: Hasher, users: seq<UserRow>, session: map<string, nat>,
                                        view: View<S>, kwargs: Kwargs, s: S)
    returns (identity: Option<UserRow>, guarded: (Response, S))
    requires TableValid(users)
    ensures identity == None
    ensures guarded == (Redirect(AuthLogin), s)
  {
    var app := new AuthApp(h, users, session);
    var _ := app.Logout();
    app.LoadLoggedInUser();
    identity := app.currentUser;
    guarded := LoginRequired(view)(identity, kwargs, s);
  }
}
