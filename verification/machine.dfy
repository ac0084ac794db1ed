/** The application as a state machine: every request one browser can send,
    the traces of such requests, the invariant every handler preserves, the
    way the tables may evolve, and the end-to-end behaviours the handlers
    combine into.
 */
module Machine {
  import opened Schema
  import opened Store
  import opened Handlers

  /** One HTTP request: the route, the form (None for a GET) and, where the
      handler stamps a row, the time it reads from the clock. */
  datatype Request =
    | IndexReq
    | RegisterReq(registration: Option<RegistrationForm>)
    | LoginReq(email: Option<string>)
    | LogoutReq
    | NewComplaintReq(complaint: Option<ComplaintForm>, now: Timestamp)
    | DetailReq(id: nat)
    | RespondReq(id: nat, content: string, now: Timestamp)

  function Step(st: State, req: Request): Transition {
    match req
    case IndexReq => Index(st)
    case RegisterReq(form) => Register(st, form)
    case LoginReq(form) => Login(st, form)
    case LogoutReq => Logout(st)
    case NewComplaintReq(form, now) => NewComplaint(st, form, now)
    case DetailReq(id) => Detail(st, id)
    case RespondReq(id, content, now) => Respond(st, id, content, now)
  }

  /** The state after handling `reqs` in order. */
  function Run(st: State, reqs: seq<Request>): State
    decreases |reqs|
  {
    if reqs == [] then st else Run(Step(st, reqs[0]).next, reqs[1..])
  }

  // ---------------------------------------------------------------------
  // The invariant
  // ---------------------------------------------------------------------

  lemma RegisterPreservesValid(st: State, form: Option<RegistrationForm>)
    requires Valid(st)
    ensures Valid(Register(st, form).next)
  {
    var st' := Register(st, form).next;
    if form.Some? && Admissible(st.db.users, form.value) {
      forall c | c in st'.db.complaints.rows
        ensures HasId(st'.db.users, c.data.owner)
      {
        var u :| u in st.db.users.rows && u.id == c.data.owner;
        assert u in st'.db.users.rows;
      }
      if st.session.Some? {
        var u :| u in st.db.users.rows && IdentityOf(u) == st.session.value;
        assert u in st'.db.users.rows;
      }
    }
  }

  lemma NewComplaintPreservesValid(st: State, form: Option<ComplaintForm>, now: Timestamp)
    requires Valid(st)
    ensures Valid(NewComplaint(st, form, now).next)
  {
    var st' := NewComplaint(st, form, now).next;
    if st.session.Some? && form.Some? {
      var u :| u in st.db.users.rows && IdentityOf(u) == st.session.value;
      assert HasId(st.db.users, st.session.value.userId);
      assert WellKeyed(st'.db.complaints) by {
        assert st'.db.complaints == Insert(st.db.complaints, st'.db.complaints.rows[|st.db.complaints.rows|].data);
      }
    }
  }

  lemma RespondPreservesValid(st: State, id: nat, content: string, now: Timestamp)
    requires Valid(st)
    ensures Valid(Respond(st, id, content, now).next)
  {
    var st' := Respond(st, id, content, now).next;
    if st.session.Some? && st.session.value.role == Admin && id <= MaxSqlInteger {
      var old_c := st.db.complaints.rows;
      var new_c := st'.db.complaints.rows;
      var added := st'.db.responses.rows[|st.db.responses.rows|];
      assert st'.db.responses == Insert(st.db.responses, added.data);
      forall c | c in new_c
        ensures HasId(st'.db.users, c.data.owner)
        ensures c.data.status == Resuelto ==> Answered(st'.db.responses, c.id)
      {
        var i :| 0 <= i < |new_c| && new_c[i] == c;
        assert old_c[i] in old_c;
        if c.data.status == Resuelto {
          if old_c[i].id == id {
            assert added in st'.db.responses.rows;
          } else {
            var x :| x in st.db.responses.rows && x.data.complaint == c.id;
            assert x in st'.db.responses.rows;
          }
        }
      }
    }
  }

  /** Every handler keeps the database and session invariant. */
  lemma StepPreservesValid(st: State, req: Request)
    requires Valid(st)
    ensures Valid(Step(st, req).next)
  {
    match req
    case IndexReq =>
    case RegisterReq(form) => RegisterPreservesValid(st, form);
    case LoginReq(form) =>
    case LogoutReq =>
    case NewComplaintReq(form, now) => NewComplaintPreservesValid(st, form, now);
    case DetailReq(id) =>
    case RespondReq(id, content, now) => RespondPreservesValid(st, id, content, now);
  }

  /** Every state reachable from a valid one is valid. */
  lemma {:induction false} RunPreservesValid(st: State, reqs: seq<Request>)
    requires Valid(st)
    ensures Valid(Run(st, reqs))
    decreases |reqs|
  {
    if reqs != [] {
      StepPreservesValid(st, reqs[0]);
      RunPreservesValid(Step(st, reqs[0]).next, reqs[1..]);
    }
  }

  /** Every state reachable from the database `init_db` creates, with no
      login, is valid. */
  lemma ReachableValid(reqs: seq<Request>)
    ensures Valid(Run(State(InitDb(DbFile(None, None, None)), None), reqs))
  {
    RunPreservesValid(State(InitDb(DbFile(None, None, None)), None), reqs);
  }

  // ---------------------------------------------------------------------
  // How the tables evolve
  // ---------------------------------------------------------------------

  ghost predicate Prefix<T>(a: seq<T>, b: seq<T>) {
    |a| <= |b| && b[..|a|] == a
  }

  /** A later version of a complaint: same id and columns, except that the
      status may move from Pendiente to Resuelto and never back. */
  ghost predicate Keeps(c1: Row<Complaint>, c2: Row<Complaint>) {
    && c2.id == c1.id
    && c2.data == c1.data.(status := c2.data.status)
    && (c1.data.status == Resuelto ==> c2.data.status == Resuelto)
  }

  /** Users and responses are only ever appended (so a user's role is fixed
      at registration); complaints are only appended or resolved. */
  ghost predicate Evolves(db1: Db, db2: Db) {
    && Prefix(db1.users.rows, db2.users.rows)
    && Prefix(db1.responses.rows, db2.responses.rows)
    && |db1.complaints.rows| <= |db2.complaints.rows|
    && (forall i :: 0 <= i < |db1.complaints.rows| ==> Keeps(db1.complaints.rows[i], db2.complaints.rows[i]))
  }

  lemma StepEvolves(st: State, req: Request)
    ensures Evolves(st.db, Step(st, req).next.db)
  {
    var db' := Step(st, req).next.db;
    assert st.db.users.rows == db'.users.rows[..|st.db.users.rows|];
    assert st.db.responses.rows == db'.responses.rows[..|st.db.responses.rows|];
  }

  lemma {:induction false} EvolvesTransitive(db1: Db, db2: Db, db3: Db)
    requires Evolves(db1, db2) && Evolves(db2, db3)
    ensures Evolves(db1, db3)
  {
    assert db3.users.rows[..|db1.users.rows|] == db2.users.rows[..|db1.users.rows|];
    assert db3.responses.rows[..|db1.responses.rows|] == db2.responses.rows[..|db1.responses.rows|];
    forall i | 0 <= i < |db1.complaints.rows|
      ensures Keeps(db1.complaints.rows[i], db3.complaints.rows[i])
    {
      assert Keeps(db1.complaints.rows[i], db2.complaints.rows[i]);
      assert Keeps(db2.complaints.rows[i], db3.complaints.rows[i]);
    }
  }

  /** Over any trace, no row is deleted, no user or response is edited, no
      complaint column but the status changes, and no resolved complaint is
      ever set back to Pendiente. */
  lemma {:induction false} RunEvolves(st: State, reqs: seq<Request>)
    ensures Evolves(st.db, Run(st, reqs).db)
    decreases |reqs|
  {
    if reqs == [] {
      assert st.db.users.rows[..|st.db.users.rows|] == st.db.users.rows;
      assert st.db.responses.rows[..|st.db.responses.rows|] == st.db.responses.rows;
    } else {
      var st1 := Step(st, reqs[0]).next;
      StepEvolves(st, reqs[0]);
      RunEvolves(st1, reqs[1..]);
      EvolvesTransitive(st.db, st1.db, Run(st1, reqs[1..]).db);
    }
  }

  /** Only an admin's response moves a complaint to Resuelto, and the same
      request files a response under that complaint's id. */
  lemma ResolvedOnlyByAdmin(st: State, req: Request, i: nat)
    requires i < |st.db.complaints.rows| && i < |Step(st, req).next.db.complaints.rows|
    requires st.db.complaints.rows[i].data.status == Pendiente
    requires Step(st, req).next.db.complaints.rows[i].data.status == Resuelto
    ensures req.RespondReq? && req.id == st.db.complaints.rows[i].id
    ensures st.session.Some? && st.session.value.role == Admin
    ensures Answered(Step(st, req).next.db.responses, req.id)
  {
    var db' := Step(st, req).next.db;
    if req.RespondReq? {
      var added := db'.responses.rows[|st.db.responses.rows|];
      assert added in db'.responses.rows;
    }
  }

  // ---------------------------------------------------------------------
  // End-to-end behaviours
  // ---------------------------------------------------------------------

  /** Registering a second time with an email already registered is refused
      with the same message and leaves the users table as the first
      registration left it; the first user can still log in by that email. */
  lemma DuplicateRegistration(st: State, first: RegistrationForm, second: RegistrationForm)
    requires Valid(st)
    requires Admissible(st.db.users, first)
    requires second.email == first.email
    ensures var st1 := Register(st, Some(first)).next;
            && |st1.db.users.rows| == |st.db.users.rows| + 1
            && Register(st1, Some(second)) == Transition(st1, Render(RegisterForm, Some(EmailTaken)))
            && Login(st1, Some(first.email)).next.session
               == Some(Identity(st1.db.users.lastId, ParseRole(first.tipo).value, first.name))
  {
    var st1 := Register(st, Some(first)).next;
    RegisterPreservesValid(st, Some(first));
    var added := st1.db.users.rows[|st.db.users.rows|];
    assert added in st1.db.users.rows;
    assert EmailInUse(st1.db.users, first.email);
  }

  /** Logging in with an email nobody registered leaves a browser without a
      login, so the listing still sends it to the login page. */
  lemma UnknownEmailStaysAnonymous(st: State, email: string)
    requires st.session.None? && !EmailInUse(st.db.users, email)
    ensures Login(st, Some(email)).next.session.None?
    ensures Index(Login(st, Some(email)).next).outcome == Redirect(LoginRoute, None)
  {
  }

  /** After logout the listing redirects to the login page and responding
      raises KeyError, whoever was logged in before. */
  lemma LogoutEndsAccess(st: State, id: nat, content: string, now: Timestamp)
    ensures var st1 := Logout(st).next;
            && Index(st1).outcome == Redirect(LoginRoute, None)
            && Respond(st1, id, content, now).outcome == Error(KeyError("tipo"))
            && Logout(st1) == Logout(st)
  {
  }

  /** A complaint filed by a user appears at the end of that user's listing,
      which otherwise stays as it was, and at the end of an admin's listing. */
  lemma FiledComplaintIsListed(st: State, form: ComplaintForm, now: Timestamp, admin: Identity)
    requires st.session.Some?
    requires admin.role == Admin
    ensures var st1 := NewComplaint(st, Some(form), now).next;
            var row := Row(st1.db.complaints.lastId,
                           Complaint(st.session.value.userId, form.subject, form.description, now, Pendiente));
            && Index(st1).outcome.view.complaints == Index(st).outcome.view.complaints + [row]
            && Index(st1.(session := Some(admin))).outcome.view.complaints
               == Index(st.(session := Some(admin))).outcome.view.complaints + [row]
  {
    var who := st.session.value;
    var st1 := NewComplaint(st, Some(form), now).next;
    var row := st1.db.complaints.rows[|st.db.complaints.rows|];
    if who.role == Usuario {
      var mine := (c: Row<Complaint>) => c.data.owner == who.userId;
      SelectAppend(st.db.complaints.rows, [row], mine);
      assert Select([row], mine) == [row];
    }
  }

  /** After an admin responds to complaint `id`, its detail page lists the
      earlier responses followed by the new one, and shows the complaint, if
      there is one, as resolved. An id too large for sqlite3 fails both pages
      with OverflowError and changes nothing. */
  lemma ResponseShownInDetail(st: State, id: nat, content: string, now: Timestamp)
    requires st.session.Some? && st.session.value.role == Admin
    ensures id > MaxSqlInteger ==>
              && Respond(st, id, content, now) == Transition(st, Error(OverflowError))
              && Detail(st, id).outcome == Error(OverflowError)
    ensures id <= MaxSqlInteger ==>
            var st1 := Respond(st, id, content, now).next;
            var view := Detail(st1, id).outcome.view;
            && view.responses
               == Detail(st, id).outcome.view.responses + [Row(st1.db.responses.lastId, Response(id, content, now))]
            && (HasId(st.db.complaints, id) ==> view.complaint.Some? && view.complaint.value.data.status == Resuelto)
  {
    if id > MaxSqlInteger {
      return;
    }
    var st1 := Respond(st, id, content, now).next;
    var row := st1.db.responses.rows[|st.db.responses.rows|];
    var under := (x: Row<Response>) => x.data.complaint == id;
    SelectAppend(st.db.responses.rows, [row], under);
    assert Select([row], under) == [row];
    if HasId(st.db.complaints, id) {
      var c :| c in st.db.complaints.rows && c.id == id;
      var k :| 0 <= k < |st.db.complaints.rows| && st.db.complaints.rows[k] == c;
      assert st1.db.complaints.rows[k] in st1.db.complaints.rows;
      var shown := Detail(st1, id).outcome.view.complaint;
      assert shown.Some?;
      var i :| 0 <= i < |st1.db.complaints.rows| && st1.db.complaints.rows[i] == shown.value;
    }
  }

  /** Because the foreign key on `respuestas.id_reclamo` is not enforced, an
      admin may answer the id the next complaint will receive; that complaint
      is then filed as Pendiente yet already has a response. (The id must be
      one sqlite3 can bind.) */
  lemma OrphanResponseAdopted(st: State, content: string, now: Timestamp, form: ComplaintForm, later: Timestamp)
    requires Valid(st)
    requires st.session.Some? && st.session.value.role == Admin
    requires st.db.complaints.lastId < MaxSqlInteger
    ensures var id := st.db.complaints.lastId + 1;
            var st1 := Respond(st, id, content, now).next;
            var st2 := NewComplaint(st1, Some(form), later).next;
            var view := Detail(st2, id).outcome.view;
            && view.complaint.Some? && view.complaint.value.data.status == Pendiente
            && |view.responses| > 0
  {
    var id := st.db.complaints.lastId + 1;
    var st1 := Respond(st, id, content, now).next;
    var st2 := NewComplaint(st1, Some(form), later).next;
    var answer := st1.db.responses.rows[|st.db.responses.rows|];
    assert answer in st2.db.responses.rows;
    forall i | 0 <= i < |st1.db.complaints.rows|
      ensures st1.db.complaints.rows[i].id != id
    {
      assert st.db.complaints.rows[i].id <= st.db.complaints.lastId;
    }
    var filed := st2.db.complaints.rows[|st1.db.complaints.rows|];
    assert filed in st2.db.complaints.rows;
  }
}
