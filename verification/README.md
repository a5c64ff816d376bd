# flaskr authentication flow in Dafny

A model of the authentication blueprint of a small Flask blog (`flaskr/auth.py`): registration,
login, loading the logged-in user at the start of each request, logout, and the `login_required`
decorator that guards other views. The state the blueprint works on is held by one object,
`Auth.AuthApp`:

- `users`: the `user` table, as the rows in insertion order (`UserTable.UserRow`: id, username,
  stored password hash); the SQL lookups by username and by id are the recursive functions
  `UserTable.FindByUsername` and `UserTable.FindById`;
- `session`: the browser's session, a map from keys to values (only `user_id` is written here);
- `currentUser`: the request's identity, `g.user`, either none or a user row;
- `flashes`: the messages flashed during the request.

The views are methods of `AuthApp` that change this state step by step as the Python code does;
the checks each form runs before it changes anything (lines 32-47 and 83-94 only read the table)
are the pure functions `Auth.RegisterError` and `Auth.LoginCheck`, whose contracts give the order of
the checks and the exact error for every input. Responses are `Render(template)` or
`Redirect(endpoint)`. `Auth.LoginRequired` is the decorator as a higher-order function over the
request's identity, the view's URL arguments and whatever state the view acts on.

Password hashing (werkzeug) is not modelled: a `Hashing.Hasher` is any pair of functions `hash` and
`check`, and the only fact assumed about them is `Hashing.Sound`: a hash made from a password
verifies against that password. The random salt is a parameter of `Register`.

`AuthApp.Valid()` says that no two rows share an id or a username; every `Register` keeps it, so the
duplicate pre-check keeps usernames unique across any sequence of registrations.

## Model

| member | source | states |
|---|---|---|
| `UserTable.FindByUsername` | flaskr/auth.py:85-87 | finds a row exactly when some row has the username, and the row found has that username |
| `UserTable.FindById` | flaskr/auth.py:127-129 | finds a row exactly when some row has the id, and the row found has that id |
| `UserTable.FindsUniqueRow` | flaskr/auth.py:40-46 | in a table with distinct ids and usernames, both lookups return the one row that has the key |
| `UserTable.InsertKeepsValid` | flaskr/auth.py:50-57 | inserting a row whose username and id are unused keeps ids and usernames distinct |
| `Auth.TextInjective` | flaskr/auth.py:35-47 | the five error texts (including "User {username} is already registered." for every username) are pairwise distinct, so the flashed text identifies the failed check |
| `Auth.RegisterError` | flaskr/auth.py:35-47 | "Username is required." exactly when the username is empty (even if the password is too); "Password is required." exactly when only the password is empty; "already registered" exactly when both are non-empty and the username is taken; no error otherwise |
| `Auth.LoginCheck` | flaskr/auth.py:85-94 | "Incorrect username." exactly when no row has the username; otherwise "Incorrect password." exactly when the row's hash does not verify the password; on success the row has that username and a hash that verifies |
| `Auth.RegisteredUserCanLogIn` | flaskr/auth.py:51-53 | after a successful registration, login with the same credentials passes and yields the inserted row |
| `Auth.AuthApp.Register` | flaskr/auth.py:24-73 | GET renders the form and changes nothing; on a validation error the table is unchanged, exactly that one message is flashed and the form is rendered; on success exactly one row (new id, the username, the hash of the password) is appended, nothing is flashed, the response is a redirect to `auth.login`, and uniqueness of ids and usernames is kept |
| `Auth.AuthApp.Login` | flaskr/auth.py:78-110 | GET renders the form; on a failed check the session is unchanged, that one message is flashed and the form is rendered; on success the session holds exactly `user_id` = the row's id, no earlier key, and the response is a redirect to `index`; the table is never changed |
| `Auth.AuthApp.LoadLoggedInUser` | flaskr/auth.py:117-129 | no `user_id` in the session gives no identity; otherwise the identity is the row with that id, or none when no row has it; session, table and flashes are untouched |
| `Auth.AuthApp.Logout` | flaskr/auth.py:133-138 | the session is empty afterwards whatever it held, and the response is a redirect to `index` |
| `Auth.LoginRequired` | flaskr/auth.py:145-155 | with no identity the wrapped view redirects to `auth.login` and leaves the view's state as it was, whatever the view is; with an identity it returns exactly what the view returns |
| `Scenarios.RegisterThenLogin` | flaskr/auth.py:98-106 | registering a new username then logging in with the same password redirects to `auth.login` then `index`, the next request is authenticated as the new row, and a guarded view runs |
| `Scenarios.LogoutTwice` | flaskr/auth.py:134-138 | logging out twice gives the same state and response as logging out once, with an empty session |
| `Scenarios.LogoutThenGuardedView` | flaskr/auth.py:147-153 | after logout the next request is anonymous and a guarded view redirects to `auth.login` without touching its state |

## Left out

- The SQLite connection handling in `flaskr/db.py` (lazy connect, close on teardown, schema script, the `init-db` command): plumbing with no decision logic; the table is a field of `AuthApp` and `commit()` is part of the insert.
- How the store assigns ids: `Register` takes the new id as a parameter and requires only that no row has it yet.
- The hashing algorithm, salting and constant-time comparison of werkzeug: foreign code, abstracted as `Hashing.Hasher` with the single assumption `Hashing.Sound`.
- Flask request parsing: a POST `Request` always carries both fields, since a missing field makes Flask raise before the view's logic runs.
- Cookie signing, `url_for` URL generation, template rendering and flash display; templates and endpoints are named by small datatypes.
- Flask keeps flashed messages inside the session, so `session.clear()` at login also drops pending flashes; the model keeps them in a separate `flashes` field.
- Session values are modelled as natural numbers, the only kind this blueprint writes.
- Concurrent requests: the duplicate-username pre-check followed by the insert is modelled for one request at a time; the race between two registrations of one name is not.
- The SQL lookup by username returns some matching row in the store; the model returns the first in insertion order, which is the only one while usernames are unique.
