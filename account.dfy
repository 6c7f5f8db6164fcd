/** The `/register` and `/login` form handlers (src/routes/account.js): decisions over the
    users table, keyed by email, and the session's user id.  The outcome of each database
    call is a parameter: `lookupFails` for the `SELECT`, `insertFails` for the
    `INSERT`. */
module Account {
  /** A row of the users table. */
  datatype User = User(userId: nat, firstName: string, lastName: string, email: string, password: string)

  /** The fields of the register form. */
  datatype RegisterForm = RegisterForm(firstName: string, lastName: string, email: string, password: string, confirmPassword: string)

  /** What a handler sends back: the login page with a message, positive or negative, a
      redirect, or `next(err)`. */
  datatype Response = Render(message: string, positive: bool) | Redirect(location: string) | PassToErrorHandler

  /** `req.session.userId`, unset or set. */
  datatype Session = NoUser | LoggedIn(userId: nat)

  const AlreadyRegistered := "This email has already been registered. Please log in instead."
  const PasswordsDiffer := "The passwords do not match. Please try again."
  const AccountCreated := "Your account has been created successfully! Please log in with your credentials."
  const NotRegistered := "This email has not been registered. Please register a new account."
  const IncorrectPassword := "Incorrect password. Please try again."
  const Dashboard := "/user/dashboard"

  /** The users table after a request and the id the next inserted row gets. */
  datatype Table = Table(users: map<string, User>, nextUserId: nat)

  /** Every row is filed under its own email, has an id below the next one, and no two
      rows share an id. */
  predicate ValidTable(t: Table) {
    && (forall e :: e in t.users ==> t.users[e].email == e && t.users[e].userId < t.nextUserId)
    && (forall e1, e2 :: e1 in t.users && e2 in t.users && e1 != e2 ==> t.users[e1].userId != t.users[e2].userId)
  }

  /** The outcome of `POST /register`: a lookup error goes to the error handler; a
      known email is refused before the passwords are compared; differing passwords are
      refused; otherwise the row is inserted unless the insert fails. */
  function Register(t: Table, form: RegisterForm, lookupFails: bool, insertFails: bool): (r: (Response, Table))
    ensures lookupFails ==> r == (PassToErrorHandler, t)
    ensures !lookupFails && form.email in t.users ==> r == (Render(AlreadyRegistered, false), t)
    ensures !lookupFails && form.email !in t.users && form.password != form.confirmPassword ==>
      r == (Render(PasswordsDiffer, false), t)
    ensures !lookupFails && form.email !in t.users && form.password == form.confirmPassword && insertFails ==>
      r == (PassToErrorHandler, t)
    ensures r.1 != t <==>
      !lookupFails && form.email !in t.users && form.password == form.confirmPassword && !insertFails
    ensures r.1 != t ==>
      && r.0 == Render(AccountCreated, true)
      && r.1.nextUserId == t.nextUserId + 1
      && r.1.users == t.users[form.email := User(t.nextUserId, form.firstName, form.lastName, form.email, form.password)]
    ensures r.0 == Render(AccountCreated, true) <==> r.1 != t
  {
    if lookupFails then (PassToErrorHandler, t)
    else if form.email in t.users then (Render(AlreadyRegistered, false), t)
    else if form.password != form.confirmPassword then (Render(PasswordsDiffer, false), t)
    else if insertFails then (PassToErrorHandler, t)
    else
      var user := User(t.nextUserId, form.firstName, form.lastName, form.email, form.password);
      assert form.email in t.users[form.email := user];
      (Render(AccountCreated, true), Table(t.users[form.email := user], t.nextUserId + 1))
  }

  /** The outcome of `POST /login`: the session is set to the user's id exactly when
      the email is registered and the password matches it; every other outcome leaves the
      session as it was. */
  function Login(t: Table, session: Session, email: string, password: string, lookupFails: bool): (r: (Response, Session))
    ensures lookupFails ==> r == (PassToErrorHandler, session)
    ensures !lookupFails && email !in t.users ==> r == (Render(NotRegistered, false), session)
    ensures !lookupFails && email in t.users && t.users[email].password != password ==>
      r == (Render(IncorrectPassword, false), session)
    ensures r.0 == Redirect(Dashboard) <==> !lookupFails && email in t.users && t.users[email].password == password
    ensures r.0 == Redirect(Dashboard) ==> r.1 == LoggedIn(t.users[email].userId)
    ensures r.0 != Redirect(Dashboard) ==> r.1 == session
  {
    if lookupFails then (PassToErrorHandler, session)
    else if email !in t.users then (Render(NotRegistered, false), session)
    else if t.users[email].password != password then (Render(IncorrectPassword, false), session)
    else (Redirect(Dashboard), LoggedIn(t.users[email].userId))
  }

  /** Registering keeps every existing account as it was, and keeps the table valid. */
  lemma RegisterKeepsAccounts(t: Table, form: RegisterForm, lookupFails: bool, insertFails: bool)
    requires ValidTable(t)
    ensures var t' := Register(t, form, lookupFails, insertFails).1;
      && ValidTable(t')
      && (forall e :: e in t.users ==> e in t'.users && t'.users[e] == t.users[e])
  {
    var t' := Register(t, form, lookupFails, insertFails).1;
    if t' != t {
      forall e1, e2 | e1 in t'.users && e2 in t'.users && e1 != e2
        ensures t'.users[e1].userId != t'.users[e2].userId
      {
        if e1 != form.email && e2 != form.email {
          assert t'.users[e1] == t.users[e1] && t'.users[e2] == t.users[e2];
        }
      }
    }
  }

  /** After a successful registration, logging in with the same email and password
      signs in as the new account. */
  lemma RegisterThenLogin(t: Table, form: RegisterForm, session: Session)
    requires Register(t, form, false, false).0 == Render(AccountCreated, true)
    ensures var t' := Register(t, form, false, false).1;
      Login(t', session, form.email, form.password, false) == (Redirect(Dashboard), LoggedIn(t.nextUserId))
  {
  }

  /** In a valid table, a session set by a login names exactly one account: the one
      whose email and password were submitted. */
  lemma LoginNamesOneAccount(t: Table, session: Session, email: string, password: string)
    requires ValidTable(t)
    requires Login(t, session, email, password, false).0 == Redirect(Dashboard)
    ensures forall e :: e in t.users && LoggedIn(t.users[e].userId) == Login(t, session, email, password, false).1 ==>
      e == email && t.users[e].password == password
  {
  }

  /** The server state the two handlers change. */
  class AccountRoutes {
    var table: Table
    var session: Session

    predicate Valid()
      reads this
    {
      ValidTable(table)
    }

    constructor()
      ensures Valid() && table == Table(map[], 0) && session == NoUser
    {
      table := Table(map[], 0);
      session := NoUser;
    }

    /** `router.post('/register', …)`. */
    method PostRegister(form: RegisterForm, lookupFails: bool, insertFails: bool) returns (response: Response)
      requires Valid()
      modifies this
      ensures Valid()
      ensures (response, table) == Register(old(table), form, lookupFails, insertFails)
      ensures session == old(session)
    {
      RegisterKeepsAccounts(table, form, lookupFails, insertFails);
      var outcome := Register(table, form, lookupFails, insertFails);
      response := outcome.0;
      table := outcome.1;
    }

    /** `router.post('/login', …)`. */
    method PostLogin(email: string, password: string, lookupFails: bool) returns (response: Response)
      requires Valid()
      modifies this
      ensures Valid()
      ensures (response, session) == Login(old(table), old(session), email, password, lookupFails)
      ensures table == old(table)
    {
      var outcome := Login(table, session, email, password, lookupFails);
      response := outcome.0;
      session := outcome.1;
    }
  }
}
