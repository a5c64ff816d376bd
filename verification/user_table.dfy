/** The `user` table of the SQLite store, as the queries of the authentication flow see it:
    rows in insertion order, each with an id, a username and the stored password hash. */
module UserTable {
  import opened Wrappers

  datatype UserRow = UserRow(id: nat, username: string, passwordHash: string)

  predicate HasUsername(rows: seq<UserRow>, name: string)
  {
    exists row :: row in rows && row.username == name
  }

  predicate HasId(rows: seq<UserRow>, id: nat)
  {
    exists row :: row in rows && row.id == id
  }

  /** No two rows share an id (the primary key) or a username. */
  ghost predicate TableValid(rows: seq<UserRow>)
  {
    forall i, j :: 0 <= i < j < |rows| ==>
      rows[i].id != rows[j].id && rows[i].username != rows[j].username
  }

  /** `SELECT * FROM user WHERE username = ?` followed by fetchone(). */
  function FindByUsername(rows: seq<UserRow>, name: string): (r: Option<UserRow>)
    ensures r.Some? <==> HasUsername(rows, name)
    ensures r.Some? ==> r.value in rows && r.value.username == name
  {
    if rows == [] then None
    else if rows[0].username == name then Some(rows[0])
    else FindByUsername(rows[1..], name)
  }

  /** `SELECT * FROM user WHERE id = ?` followed by fetchone(). */
  function FindById(rows: seq<UserRow>, id: nat): (r: Option<UserRow>)
    ensures r.Some? <==> HasId(rows, id)
    ensures r.Some? ==> r.value in rows && r.value.id == id
  {
    if rows == [] then None
    else if rows[0].id == id then Some(rows[0])
    else FindById(rows[1..], id)
  }

  /** In a valid table a row is the only one with its username and the only one with its id,
      so both lookups return exactly that row. */
  lemma FindsUniqueRow(rows: seq<UserRow>, row: UserRow)
    requires TableValid(rows) && row in rows
    ensures FindByUsername(rows, row.username) == Some(row)
    ensures FindById(rows, row.id) == Some(row)
  {
  }

  /** Appending a row whose username and id are both new keeps the table valid. */
  lemma InsertKeepsValid(rows: seq<UserRow>, row: UserRow)
    requires TableValid(rows)
    requires !HasUsername(rows, row.username) && !HasId(rows, row.id)
    ensures TableValid(rows + [row])
  {
  }
}
