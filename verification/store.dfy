/** The SQLite statements the handlers issue, stated over the tables of
    Schema: filtered SELECTs in natural order, `fetchone`, AUTOINCREMENT
    inserts, the constrained insert into `usuarios`, and the status UPDATE.
 */
module Store {
  import opened Schema

  /** `SELECT * FROM t WHERE p`: the rows satisfying `p`, in natural order. */
  function Select<T>(rows: seq<Row<T>>, p: Row<T> -> bool): (r: seq<Row<T>>)
    ensures forall i :: 0 <= i < |r| ==> r[i] in rows && p(r[i])
    ensures forall i :: 0 <= i < |rows| && p(rows[i]) ==> rows[i] in r
    ensures |r| <= |rows|
  {
    if rows == [] then []
    else (if p(rows[0]) then [rows[0]] else []) + Select(rows[1..], p)
  }

  /** Selecting over rows appended later adds their matches at the end, so
      SELECT keeps insertion order. */
  lemma {:induction false} SelectAppend<T>(a: seq<Row<T>>, b: seq<Row<T>>, p: Row<T> -> bool)
    ensures Select(a + b, p) == Select(a, p) + Select(b, p)
  {
    if a == [] {
      assert a + b == b;
    } else {
      assert (a + b)[0] == a[0];
      assert (a + b)[1..] == a[1..] + b;
      SelectAppend(a[1..], b, p);
    }
  }

  /** Filtering rows whose ids ascend keeps them ascending, so a filtered
      query lists each row once, in id order. */
  lemma {:induction false} SelectAscending<T>(rows: seq<Row<T>>, p: Row<T> -> bool)
    ensures Ascending(rows) ==> Ascending(Select(rows, p))
  {
    if rows != [] && Ascending(rows) {
      var tail := rows[1..];
      assert Ascending(tail) by {
        forall i, j | 0 <= i < j < |tail| ensures tail[i].id < tail[j].id {
          assert tail[i] == rows[i + 1] && tail[j] == rows[j + 1];
        }
      }
      SelectAscending(tail, p);
      var rest := Select(tail, p);
      if p(rows[0]) {
        var all := [rows[0]] + rest;
        assert Select(rows, p) == all;
        forall i, j | 0 <= i < j < |all| ensures all[i].id < all[j].id {
          assert all[j] == rest[j - 1];
          if i == 0 {
            var k :| 0 <= k < |tail| && tail[k] == rest[j - 1];
            assert rows[k + 1] == rest[j - 1];
          } else {
            assert all[i] == rest[i - 1];
          }
        }
      } else {
        assert Select(rows, p) == [] + rest;
        assert [] + rest == rest;
      }
    }
  }

  /** `SELECT * FROM t WHERE p` followed by `fetchone()`: the first row
      satisfying `p`, or None when there is none. */
  function First<T>(rows: seq<Row<T>>, p: Row<T> -> bool): (r: Option<Row<T>>)
    ensures r.None? <==> forall i :: 0 <= i < |rows| ==> !p(rows[i])
    ensures r.Some? ==> r.value in rows && p(r.value)
  {
    if rows == [] then None
    else if p(rows[0]) then Some(rows[0])
    else First(rows[1..], p)
  }

  /** `t2` is `t1` with one row holding `v` added at the end, under an id
      strictly above every id the counter of `t1` had handed out. */
  ghost predicate Appends<T>(t1: Table<T>, t2: Table<T>, v: T) {
    && t2.rows == t1.rows + [Row(t2.lastId, v)]
    && t2.lastId > t1.lastId
  }

  /** INSERT into an AUTOINCREMENT table: the new row takes the id one past
      the table's counter, which is fresh and keeps the table well keyed. */
  function Insert<T>(t: Table<T>, v: T): (r: Table<T>)
    ensures Appends(t, r, v)
    ensures WellKeyed(t) ==> WellKeyed(r) && !HasId(t, r.lastId)
  {
    Table(t.rows + [Row(t.lastId + 1, v)], t.lastId + 1)
  }

  /** The constraint that rejected an INSERT; sqlite3 raises IntegrityError for both. */
  datatype Violation = RoleCheck | UniqueEmail

  datatype Result<T> = Ok(value: T) | IntegrityError(violation: Violation)

  /** `SELECT * FROM usuarios WHERE correo = ?`, then `fetchone()`. */
  function UserByEmail(users: Table<User>, email: string): (r: Option<Row<User>>)
    ensures r.None? <==> !EmailInUse(users, email)
    ensures r.Some? ==> r.value in users.rows && r.value.data.email == email
    ensures r.Some? && EmailsUnique(users) ==>
              forall u :: u in users.rows && u.data.email == email ==> u == r.value
  {
    var found := First(users.rows, (u: Row<User>) => u.data.email == email);
    if found.Some? then
      assert EmailsUnique(users) ==> forall u :: u in users.rows && u.data.email == email ==> u == found.value by {
        if EmailsUnique(users) {
          forall u | u in users.rows && u.data.email == email
            ensures u == found.value
          {
            var i :| 0 <= i < |users.rows| && users.rows[i] == u;
            var j :| 0 <= j < |users.rows| && users.rows[j] == found.value;
            assert !(i < j) && !(j < i);
          }
        }
      }
      found
    else
      found
  }

  /** `INSERT INTO usuarios (nombre, correo, tipo)`: rejected by the CHECK on
      `tipo` when the role text is not a role, else by the UNIQUE constraint
      when the email is taken; otherwise one user row is appended. A rejected
      statement leaves the table, counter included, as it was. */
  function InsertUser(users: Table<User>, name: string, email: string, tipo: string): (r: Result<Table<User>>)
    ensures r.Ok? <==> ParseRole(tipo).Some? && !EmailInUse(users, email)
    ensures r == IntegrityError(RoleCheck) <==> ParseRole(tipo).None?
    ensures r.Ok? ==> Appends(users, r.value, User(name, email, ParseRole(tipo).value))
    ensures r.Ok? && WellKeyed(users) && EmailsUnique(users) ==> WellKeyed(r.value) && EmailsUnique(r.value)
  {
    match ParseRole(tipo)
    case None => IntegrityError(RoleCheck)
    case Some(role) =>
      if UserByEmail(users, email).Some? then IntegrityError(UniqueEmail)
      else
        var users' := Insert(users, User(name, email, role));
        assert forall i :: 0 <= i < |users.rows| ==> users.rows[i] in users.rows;
        Ok(users')
  }

  /** `t2` is `t1` after `UPDATE reclamos SET estado = 'resuelto' WHERE id = ?`:
      same rows in the same order under the same ids, the matching rows
      resolved with every other column kept, all other rows untouched. */
  ghost predicate ResolvesId(t1: seq<Row<Complaint>>, t2: seq<Row<Complaint>>, id: nat) {
    && |t2| == |t1|
    && (forall i :: 0 <= i < |t1| ==> t2[i].id == t1[i].id)
    && (forall i :: 0 <= i < |t1| && t1[i].id == id ==> t2[i].data == t1[i].data.(status := Resuelto))
    && (forall i :: 0 <= i < |t1| && t1[i].id != id ==> t2[i] == t1[i])
  }

  /** The status UPDATE of `responder`; an id no row has updates nothing. */
  function MarkResolved(rows: seq<Row<Complaint>>, id: nat): (r: seq<Row<Complaint>>)
    ensures ResolvesId(rows, r, id)
  {
    if rows == [] then []
    else
      var head := if rows[0].id == id then Row(rows[0].id, rows[0].data.(status := Resuelto)) else rows[0];
      [head] + MarkResolved(rows[1..], id)
  }
}
