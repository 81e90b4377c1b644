/** The `users` table of the JWT variants (auth-service and the monolith share its
    schema): `id SERIAL PRIMARY KEY, login TEXT UNIQUE, password_hash, status DEFAULT
    'active', created_at DEFAULT NOW()`, together with the credential decision both
    of their login handlers make, in the same order. */
module Accounts {
  import opened Wrappers
  import Text
  import Passwords
  import opened Status

  datatype UserRow = UserRow(id: nat, login: string, hash: Passwords.PasswordHash, status: string, createdAt: int)

  /** The rows in insertion order and the next value of the SERIAL sequence. */
  datatype Table = Table(rows: seq<UserRow>, nextId: nat)

  /** The empty table: a fresh SERIAL sequence starts at 1. */
  const Empty: Table := Table([], 1)

  /** The table's constraints: logins and ids unique, ids drawn from the sequence. */
  ghost predicate Valid(t: Table) {
    && (forall i, j :: 0 <= i < j < |t.rows| ==> t.rows[i].login != t.rows[j].login)
    && (forall i, j :: 0 <= i < j < |t.rows| ==> t.rows[i].id != t.rows[j].id)
    && (forall i :: 0 <= i < |t.rows| ==> 1 <= t.rows[i].id < t.nextId)
    && t.nextId >= 1
  }

  /** Some row has this login. */
  ghost predicate Taken(rows: seq<UserRow>, login: string) {
    exists i :: 0 <= i < |rows| && rows[i].login == login
  }

  /** `SELECT ... FROM users WHERE login=%s`: the row with that login, if any. */
  function FindByLogin(rows: seq<UserRow>, login: string): (r: Option<UserRow>)
    ensures r.Some? ==> r.value in rows && r.value.login == login
    ensures r.None? <==> !Taken(rows, login)
  {
    if |rows| == 0 then None
    else if rows[0].login == login then Some(rows[0])
    else FindByLogin(rows[1..], login)
  }

  /** `SELECT ... FROM users WHERE id=%s`: the row with that id, if any. */
  function FindById(rows: seq<UserRow>, id: nat): (r: Option<UserRow>)
    ensures r.Some? ==> r.value in rows && r.value.id == id
    ensures r.None? <==> forall i :: 0 <= i < |rows| ==> rows[i].id != id
  {
    if |rows| == 0 then None
    else if rows[0].id == id then Some(rows[0])
    else FindById(rows[1..], id)
  }

  /** In a valid table a login names at most one row, so the lookup finds that row. */
  lemma FindByLoginUnique(t: Table, k: nat)
    requires Valid(t) && k < |t.rows|
    ensures FindByLogin(t.rows, t.rows[k].login) == Some(t.rows[k])
  {
    var r := FindByLogin(t.rows, t.rows[k].login);
    var j :| 0 <= j < |t.rows| && t.rows[j] == r.value;
    assert j == k;
  }

  /** In a valid table an id names at most one row, so the lookup finds that row. */
  lemma FindByIdUnique(t: Table, k: nat)
    requires Valid(t) && k < |t.rows|
    ensures FindById(t.rows, t.rows[k].id) == Some(t.rows[k])
  {
    var r := FindById(t.rows, t.rows[k].id);
    var j :| 0 <= j < |t.rows| && t.rows[j] == r.value;
    assert j == k;
  }

  /** In a valid table every row is what the lookup by its id finds. */
  lemma FindByIdAll(t: Table)
    ensures Valid(t) ==> forall k :: 0 <= k < |t.rows| ==> FindById(t.rows, t.rows[k].id) == Some(t.rows[k])
  {
    if Valid(t) {
      forall k | 0 <= k < |t.rows| ensures FindById(t.rows, t.rows[k].id) == Some(t.rows[k]) {
        FindByIdUnique(t, k);
      }
    }
  }

  datatype InsertResult = Inserted(row: UserRow, table: Table) | Duplicate(table: Table)

  /** `INSERT INTO users(login, password_hash) VALUES (...) RETURNING id, status`.
      The id is drawn from the sequence before the uniqueness check, so a rejected
      insert still consumes it (PostgreSQL sequences are not transactional). */
  function Insert(t: Table, login: string, hash: Passwords.PasswordHash, now: int): (r: InsertResult)
    ensures r.table.nextId == t.nextId + 1
    ensures r.Duplicate? <==> Taken(t.rows, login)
    ensures r.Duplicate? ==> r.table.rows == t.rows
    ensures r.Inserted? ==>
      && r.row == UserRow(t.nextId, login, hash, ACTIVE, now)
      && r.table.rows == t.rows + [r.row]
    ensures Valid(t) ==> Valid(r.table)
  {
    var t' := t.(nextId := t.nextId + 1);
    if FindByLogin(t.rows, login).Some? then Duplicate(t')
    else
      var row := UserRow(t.nextId, login, hash, ACTIVE, now);
      Inserted(row, t'.(rows := t.rows + [row]))
  }

  /** `UPDATE users SET status=%s WHERE id=%s`: the new rows and the row count. */
  function UpdateStatus(rows: seq<UserRow>, id: nat, status: string): (r: seq<UserRow>)
    ensures |r| == |rows|
    ensures forall i :: 0 <= i < |rows| ==>
      r[i] == if rows[i].id == id then rows[i].(status := status) else rows[i]
  {
    seq(|rows|, i requires 0 <= i < |rows| => if rows[i].id == id then rows[i].(status := status) else rows[i])
  }

  /** Changing a status keeps every constraint of the table. */
  lemma UpdateStatusValid(t: Table, id: nat, status: string)
    ensures Valid(t) ==> Valid(t.(rows := UpdateStatus(t.rows, id, status)))
  {
  }

  /** The outcome of checking credentials against the table. */
  datatype Decision = UnknownLogin | NotActive(status: string) | BadPassword | Admitted(user: UserRow)

  /** The check both JWT login handlers make, in their order: no such login, then a
      status other than 'active' (before the password is looked at), then the password. */
  function Authenticate(rows: seq<UserRow>, login: string, password: string): (d: Decision)
    ensures d.UnknownLogin? <==> !Taken(rows, login)
    ensures d.NotActive? ==> d.status != ACTIVE && exists i :: 0 <= i < |rows| && rows[i].login == login && rows[i].status == d.status
    ensures d.BadPassword? ==> exists i :: 0 <= i < |rows| && rows[i].login == login && rows[i].status == ACTIVE && !Passwords.Check(rows[i].hash, password)
    ensures d.Admitted? ==> d.user in rows && d.user.login == login && d.user.status == ACTIVE && Passwords.Check(d.user.hash, password)
  {
    match FindByLogin(rows, login)
    case None => UnknownLogin
    case Some(u) =>
      if u.status != ACTIVE then NotActive(u.status)
      else if !Passwords.Check(u.hash, password) then BadPassword
      else Admitted(u)
  }

  /** In a valid table the decision is determined by the one row with that login:
      admitted exactly for an active row and its own password, and a non-active row
      is refused whatever the password. */
  lemma AuthenticateRow(t: Table, k: nat, password: string)
    requires Valid(t) && k < |t.rows|
    ensures var u := t.rows[k];
      && (u.status != ACTIVE ==> Authenticate(t.rows, u.login, password) == NotActive(u.status))
      && (u.status == ACTIVE && !Passwords.Check(u.hash, password) ==> Authenticate(t.rows, u.login, password) == BadPassword)
      && (u.status == ACTIVE && Passwords.Check(u.hash, password) ==> Authenticate(t.rows, u.login, password) == Admitted(u))
  {
    FindByLoginUnique(t, k);
  }
}
