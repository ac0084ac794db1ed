/** The Flask route handlers of the complaint tracker, each a pure
    transition from the current state and the request's inputs to the next
    state and what the browser receives. A form argument of None stands for a
    GET request, Some(form) for a POST carrying that form.
 */
module Handlers {
  import opened Schema
  import opened Store

  /** Where a redirect sends the browser. */
  datatype Route = LoginRoute | IndexRoute

  /** The flash messages the handlers queue. */
  datatype Notice = Registered | EmailTaken | UserNotFound | ComplaintFiled | NoPermission | ResponseAdded

  /** A rendered template and the rows it receives. */
  datatype View =
    | LoginForm
    | RegisterForm
    | NewComplaintForm
    | ComplaintList(complaints: seq<Row<Complaint>>, role: Role)
    | ComplaintDetail(complaint: Option<Row<Complaint>>, responses: seq<Row<Response>>)

  /** The uncaught exceptions a handler can raise: reading a session key
      that is absent, or binding an integer sqlite3 cannot store. */
  datatype Fault = KeyError(key: string) | OverflowError

  /** What a request produces: a redirect or a rendered page, each with the
      flash message it queued, or an uncaught exception, which Flask turns
      into a server error. */
  datatype Outcome =
    | Redirect(to: Route, flash: Option<Notice>)
    | Render(view: View, flash: Option<Notice>)
    | Error(fault: Fault)

  datatype Transition = Transition(next: State, outcome: Outcome)

  datatype RegistrationForm = RegistrationForm(name: string, email: string, tipo: string)

  datatype ComplaintForm = ComplaintForm(subject: string, description: string)

  /** The registration form passes both constraints on `usuarios`. */
  ghost predicate Admissible(users: Table<User>, form: RegistrationForm) {
    ParseRole(form.tipo).Some? && !EmailInUse(users, form.email)
  }

  /** `index`: without a login, a redirect to the login page that reads
      nothing; an admin sees every complaint, anyone else exactly the
      complaints they own. */
  function Index(st: State): (r: Transition)
    ensures r.next == st
    ensures st.session.None? <==> r.outcome == Redirect(LoginRoute, None)
    ensures st.session.Some? ==>
              && r.outcome.Render? && r.outcome.flash.None?
              && r.outcome.view.ComplaintList?
              && r.outcome.view.role == st.session.value.role
    ensures st.session.Some? && st.session.value.role == Admin ==>
              r.outcome.view.complaints == st.db.complaints.rows
    ensures st.session.Some? && st.session.value.role == Usuario ==>
              && (forall i :: 0 <= i < |r.outcome.view.complaints| ==>
                    && r.outcome.view.complaints[i] in st.db.complaints.rows
                    && r.outcome.view.complaints[i].data.owner == st.session.value.userId)
              && (forall c :: c in st.db.complaints.rows && c.data.owner == st.session.value.userId ==>
                    c in r.outcome.view.complaints)
    ensures st.session.Some? && Ascending(st.db.complaints.rows) ==> Ascending(r.outcome.view.complaints)
  {
    match st.session
    case None => Transition(st, Redirect(LoginRoute, None))
    case Some(who) =>
      var mine := (c: Row<Complaint>) => c.data.owner == who.userId;
      var listed := if who.role == Admin then st.db.complaints.rows else Select(st.db.complaints.rows, mine);
      SelectAscending(st.db.complaints.rows, mine);
      Transition(st, Render(ComplaintList(listed, who.role), None))
  }

  /** `registro`: a GET shows the form. A POST whose form passes both
      constraints appends one user with the submitted fields under a fresh id
      and redirects to the login page; any other POST hits IntegrityError and
      re-renders the form with the same message, the table untouched. The
      session is never changed: registering does not log in. */
  function Register(st: State, form: Option<RegistrationForm>): (r: Transition)
    ensures r.next.session == st.session
    ensures r.next.db.complaints == st.db.complaints && r.next.db.responses == st.db.responses
    ensures form.None? ==> r == Transition(st, Render(RegisterForm, None))
    ensures form.Some? && Admissible(st.db.users, form.value) ==>
              && r.outcome == Redirect(LoginRoute, Some(Registered))
              && Appends(st.db.users, r.next.db.users,
                         User(form.value.name, form.value.email, ParseRole(form.value.tipo).value))
    ensures form.Some? && !Admissible(st.db.users, form.value) ==>
              r == Transition(st, Render(RegisterForm, Some(EmailTaken)))
  {
    match form
    case None => Transition(st, Render(RegisterForm, None))
    case Some(f) =>
      match InsertUser(st.db.users, f.name, f.email, f.tipo)
      case Ok(users) => Transition(st.(db := st.db.(users := users)), Redirect(LoginRoute, Some(Registered)))
      case IntegrityError(_) => Transition(st, Render(RegisterForm, Some(EmailTaken)))
  }

  /** `login`: looks the email up (no credential is checked). When a user has
      it, the session becomes that user's id, role and name; otherwise the
      session stays as it was and the form is re-rendered with a not-found
      message. The database is never written. */
  function Login(st: State, form: Option<string>): (r: Transition)
    ensures r.next.db == st.db
    ensures form.None? ==> r == Transition(st, Render(LoginForm, None))
    ensures form.Some? && !EmailInUse(st.db.users, form.value) ==>
              r == Transition(st, Render(LoginForm, Some(UserNotFound)))
    ensures form.Some? && EmailInUse(st.db.users, form.value) ==>
              && r.outcome == Redirect(IndexRoute, None)
              && r.next.session.Some?
              && exists u :: u in st.db.users.rows && u.data.email == form.value
                             && r.next.session.value == IdentityOf(u)
    ensures form.Some? && EmailsUnique(st.db.users) ==>
              forall u :: u in st.db.users.rows && u.data.email == form.value ==>
                            r.next.session == Some(IdentityOf(u))
  {
    match form
    case None => Transition(st, Render(LoginForm, None))
    case Some(email) =>
      match UserByEmail(st.db.users, email)
      case Some(u) => Transition(st.(session := Some(IdentityOf(u))), Redirect(IndexRoute, None))
      case None => Transition(st, Render(LoginForm, Some(UserNotFound)))
  }

  /** `logout`: `session.clear()` empties the session whatever it held,
      writes nothing, and redirects to the login page. */
  function Logout(st: State): (r: Transition)
    ensures r.next.session.None?
    ensures r.next.db == st.db
    ensures r.outcome == Redirect(LoginRoute, None)
  {
    Transition(st.(session := None), Redirect(LoginRoute, None))
  }

  /** `nuevo_reclamo`: without a login, a redirect to the login page with no
      change. With one, a GET shows the form and a POST appends one complaint
      owned by the logged-in user, holding the submitted subject and
      description verbatim (empty texts included), the supplied time and the
      column default Pendiente, under a fresh id. */
  function NewComplaint(st: State, form: Option<ComplaintForm>, now: Timestamp): (r: Transition)
    ensures st.session.None? ==> r == Transition(st, Redirect(LoginRoute, None))
    ensures st.session.Some? && form.None? ==> r == Transition(st, Render(NewComplaintForm, None))
    ensures st.session.Some? && form.Some? ==>
              && r.outcome == Redirect(IndexRoute, Some(ComplaintFiled))
              && r.next.session == st.session
              && r.next.db.users == st.db.users
              && r.next.db.responses == st.db.responses
              && Appends(st.db.complaints, r.next.db.complaints,
                         Complaint(st.session.value.userId, form.value.subject, form.value.description,
                                   now, Pendiente))
  {
    match st.session
    case None => Transition(st, Redirect(LoginRoute, None))
    case Some(who) =>
      match form
      case None => Transition(st, Render(NewComplaintForm, None))
      case Some(f) =>
        var complaint := Complaint(who.userId, f.subject, f.description, now, Pendiente);
        var complaints := Insert(st.db.complaints, complaint);
        Transition(st.(db := st.db.(complaints := complaints)), Redirect(IndexRoute, Some(ComplaintFiled)))
  }

  /** `reclamo_detalle`: needs no login and changes nothing. An id too large
      for sqlite3 to bind raises OverflowError. Otherwise it shows the
      complaint with the given id, or none when no complaint has it, and every
      response filed under that id, in id order. */
  function Detail(st: State, id: nat): (r: Transition)
    ensures r.next == st
    ensures id > MaxSqlInteger ==> r.outcome == Error(OverflowError)
    ensures id <= MaxSqlInteger ==> r.outcome.Render? && r.outcome.flash.None? && r.outcome.view.ComplaintDetail?
    ensures id <= MaxSqlInteger ==> (r.outcome.view.complaint.None? <==> !HasId(st.db.complaints, id))
    ensures id <= MaxSqlInteger && r.outcome.view.complaint.Some? ==>
              r.outcome.view.complaint.value in st.db.complaints.rows && r.outcome.view.complaint.value.id == id
    ensures id <= MaxSqlInteger ==>
              forall i :: 0 <= i < |r.outcome.view.responses| ==>
                r.outcome.view.responses[i] in st.db.responses.rows && r.outcome.view.responses[i].data.complaint == id
    ensures id <= MaxSqlInteger ==>
              forall x :: x in st.db.responses.rows && x.data.complaint == id ==> x in r.outcome.view.responses
    ensures id <= MaxSqlInteger && Ascending(st.db.responses.rows) ==> Ascending(r.outcome.view.responses)
  {
    if id > MaxSqlInteger then Transition(st, Error(OverflowError))
    else
      var complaint := First(st.db.complaints.rows, (c: Row<Complaint>) => c.id == id);
      var under := (x: Row<Response>) => x.data.complaint == id;
      var responses := Select(st.db.responses.rows, under);
      SelectAscending(st.db.responses.rows, under);
      Transition(st, Render(ComplaintDetail(complaint, responses), None))
  }

  /** `responder`: reading `tipo` from a session without a login raises
      KeyError, with no change. A logged-in non-admin is redirected with a
      permission message and no change. For an admin, an id too large for
      sqlite3 to bind raises OverflowError at the insert, before anything is
      written; any other id gets one response (the id, the content, the
      supplied time) appended under a fresh id, and that complaint is marked
      resolved, every other complaint untouched. */
  function Respond(st: State, id: nat, content: string, now: Timestamp): (r: Transition)
    ensures st.session.None? ==> r == Transition(st, Error(KeyError("tipo")))
    ensures st.session.Some? && st.session.value.role != Admin ==>
              r == Transition(st, Redirect(IndexRoute, Some(NoPermission)))
    ensures st.session.Some? && st.session.value.role == Admin && id > MaxSqlInteger ==>
              r == Transition(st, Error(OverflowError))
    ensures st.session.Some? && st.session.value.role == Admin && id <= MaxSqlInteger ==>
              && r.outcome == Redirect(IndexRoute, Some(ResponseAdded))
              && r.next.session == st.session
              && r.next.db.users == st.db.users
              && Appends(st.db.responses, r.next.db.responses, Response(id, content, now))
              && r.next.db.complaints.lastId == st.db.complaints.lastId
              && ResolvesId(st.db.complaints.rows, r.next.db.complaints.rows, id)
  {
    match st.session
    case None => Transition(st, Error(KeyError("tipo")))
    case Some(who) =>
      if who.role != Admin then Transition(st, Redirect(IndexRoute, Some(NoPermission)))
      else if id > MaxSqlInteger then Transition(st, Error(OverflowError))
      else
        var responses := Insert(st.db.responses, Response(id, content, now));
        var complaints := Table(MarkResolved(st.db.complaints.rows, id), st.db.complaints.lastId);
        Transition(State(Db(st.db.users, complaints, responses), st.session), Redirect(IndexRoute, Some(ResponseAdded)))
  }
}
