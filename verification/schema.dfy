/** The persistent state of the complaint tracker: the three tables that
    `init_db` creates (usuarios, reclamos, respuestas), the constraints SQLite
    enforces on them, and the Flask session that binds a browser to a user.
 */
module Schema {

  datatype Option<+T> = None | Some(value: T) {
    function GetOr(default: T): T {
      match this
      case Some(v) => v
      case None => default
    }
  }

  /** The "%Y-%m-%d %H:%M:%S" rendering of the wall clock, supplied by the caller. */
  type Timestamp = string

  /** The value domain of `usuarios.tipo`, fixed by its CHECK constraint. */
  datatype Role = Usuario | Admin

  /** The text stored in the `tipo` column for each role. */
  function RoleText(role: Role): string {
    match role
    case Usuario => "usuario"
    case Admin => "admin"
  }

  /** The CHECK(tipo IN ('usuario', 'admin')) constraint: a submitted role text
      is admitted exactly when it is the text of some role. */
  function ParseRole(tipo: string): (r: Option<Role>)
    ensures r.Some? ==> RoleText(r.value) == tipo
    ensures r.None? ==> forall role: Role :: RoleText(role) != tipo
  {
    if tipo == "usuario" then Some(Usuario)
    else if tipo == "admin" then Some(Admin)
    else None
  }

  /** The value domain of `reclamos.estado`, fixed by its CHECK constraint;
      the column defaults to Pendiente. */
  datatype Status = Pendiente | Resuelto

  /** A row of `usuarios` without its id. */
  datatype User = User(name: string, email: string, role: Role)

  /** A row of `reclamos` without its id. */
  datatype Complaint = Complaint(owner: nat, subject: string, description: string,
                                 date: Timestamp, status: Status)

  /** A row of `respuestas` without its id. */
  datatype Response = Response(complaint: nat, content: string, date: Timestamp)

  /** A stored row: its INTEGER PRIMARY KEY and its other columns. */
  datatype Row<T> = Row(id: nat, data: T)

  /** A table in natural (insertion) order, together with the largest id its
      AUTOINCREMENT counter has handed out so far (its sqlite_sequence entry). */
  datatype Table<T> = Table(rows: seq<Row<T>>, lastId: nat)

  datatype Db = Db(users: Table<User>, complaints: Table<Complaint>, responses: Table<Response>)

  /** What the session holds after a successful login: `usuario_id`, `tipo`
      and `nombre`. */
  datatype Identity = Identity(userId: nat, role: Role, name: string)

  /** The application state seen by one browser: the database and that
      browser's session (None when it holds no login keys). */
  datatype State = State(db: Db, session: Option<Identity>)

  /** The tables a database file holds before `init_db` runs; None for a
      table that does not exist yet. */
  datatype DbFile = DbFile(users: Option<Table<User>>, complaints: Option<Table<Complaint>>,
                           responses: Option<Table<Response>>)

  /** A database file holding every table of `db`. */
  function FileOf(db: Db): DbFile {
    DbFile(Some(db.users), Some(db.complaints), Some(db.responses))
  }

  /** `init_db`: three separate CREATE TABLE IF NOT EXISTS statements. Each
      missing table is created empty with its counter at zero; each existing
      table keeps its rows and counter. */
  function InitDb(file: DbFile): (r: Db)
    ensures file.users.Some? ==> r.users == file.users.value
    ensures file.users.None? ==> r.users == Table([], 0)
    ensures file.complaints.Some? ==> r.complaints == file.complaints.value
    ensures file.complaints.None? ==> r.complaints == Table([], 0)
    ensures file.responses.Some? ==> r.responses == file.responses.value
    ensures file.responses.None? ==> r.responses == Table([], 0)
    ensures file == DbFile(None, None, None) ==> DbValid(r)
    ensures forall db :: file == FileOf(db) && DbValid(db) ==> DbValid(r)
  {
    Db(file.users.GetOr(Table([], 0)),
       file.complaints.GetOr(Table([], 0)),
       file.responses.GetOr(Table([], 0)))
  }

  /** The largest integer sqlite3 binds as a query parameter (a signed
      64-bit INTEGER); a larger Python int raises OverflowError. */
  const MaxSqlInteger: nat := 0x7FFF_FFFF_FFFF_FFFF

  /** Ids strictly increase along the rows. */
  ghost predicate Ascending<T>(rows: seq<Row<T>>) {
    forall i, j :: 0 <= i < j < |rows| ==> rows[i].id < rows[j].id
  }

  /** Ids are positive, strictly increasing in natural order, and never above
      the AUTOINCREMENT counter. */
  ghost predicate WellKeyed<T>(t: Table<T>) {
    && (forall i :: 0 <= i < |t.rows| ==> 1 <= t.rows[i].id <= t.lastId)
    && Ascending(t.rows)
  }

  ghost predicate HasId<T>(t: Table<T>, id: nat) {
    exists x :: x in t.rows && x.id == id
  }

  /** The UNIQUE constraint on `usuarios.correo`. */
  ghost predicate EmailsUnique(users: Table<User>) {
    forall i, j :: 0 <= i < j < |users.rows| ==> users.rows[i].data.email != users.rows[j].data.email
  }

  ghost predicate EmailInUse(users: Table<User>, email: string) {
    exists u :: u in users.rows && u.data.email == email
  }

  /** Some response is attached to complaint `id`. */
  ghost predicate Answered(responses: Table<Response>, id: nat) {
    exists x :: x in responses.rows && x.data.complaint == id
  }

  /** What every reachable database satisfies: the key discipline of each
      table, email uniqueness, every complaint owned by an existing user, and
      every resolved complaint carrying at least one response. */
  ghost predicate DbValid(db: Db) {
    && WellKeyed(db.users)
    && WellKeyed(db.complaints)
    && WellKeyed(db.responses)
    && EmailsUnique(db.users)
    && (forall c :: c in db.complaints.rows ==> HasId(db.users, c.data.owner))
    && (forall c :: c in db.complaints.rows && c.data.status == Resuelto ==> Answered(db.responses, c.id))
  }

  /** The identity a login stores for user row `u`. */
  function IdentityOf(u: Row<User>): Identity {
    Identity(u.id, u.data.role, u.data.name)
  }

  /** A logged-in session names an existing user with that user's role and name. */
  ghost predicate SessionValid(st: State) {
    st.session.Some? ==> exists u :: u in st.db.users.rows && IdentityOf(u) == st.session.value
  }

  ghost predicate Valid(st: State) {
    DbValid(st.db) && SessionValid(st)
  }

  /** Every role text round-trips through the CHECK constraint. */
  lemma ParseRoleText(role: Role)
    ensures ParseRole(RoleText(role)) == Some(role)
  {
  }

  /** `init_db` is idempotent: running it on its own result changes nothing. */
  lemma InitDbIdempotent(file: DbFile)
    ensures InitDb(FileOf(InitDb(file))) == InitDb(file)
  {
  }
}
