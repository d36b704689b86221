/** Accounts and the session.

    The registration and login forms keep their accounts in a browser
    store: a list of user records (`users`) and the signed-in record
    (`currentUser`). `Browser` is that store as a value, and each form
    submission is one transition of it.

    The authentication context keeps its own `currentUser`; its mock `login`
    and `register` build the record without consulting the account list.
    Its records are open objects, modelled as maps from property names to
    string values so that the spread `{ ...userData }` keeps whatever the
    caller passed. */
module Auth {
  import opened Wrappers
  import opened Seqs

  // ---------------------------------------------------------------------
  // Registration and login against the stored account list

  /** A stored account: the registration form minus its two form-only fields. */
  datatype Account = Account(name: string, email: string, password: string, department: string, year: string)

  /** What the registration form submits. */
  datatype RegistrationForm = RegistrationForm(
    name: string,
    email: string,
    password: string,
    confirmPassword: string,
    department: string,
    year: string,
    termsAccepted: bool)

  datatype Browser = Browser(users: seq<Account>, currentUser: Option<Account>)

  /** A message attached to one form field. */
  datatype FieldError = FieldError(field: string, message: string)

  const EmailTakenMessage := "This email is already registered"
  const BadCredentialsMessage := "Invalid email or password"

  /** `const { confirmPassword, termsAccepted, ...userData } = values`. */
  function AccountOf(v: RegistrationForm): (a: Account)
    ensures a.name == v.name && a.email == v.email && a.password == v.password
    ensures a.department == v.department && a.year == v.year
  {
    Account(v.name, v.email, v.password, v.department, v.year)
  }

  function HasEmail(email: string): Account -> bool {
    (a: Account) => a.email == email
  }

  /** No two stored accounts share an email. */
  predicate EmailsDistinct(users: seq<Account>) {
    forall i, j :: 0 <= i < j < |users| ==> users[i].email != users[j].email
  }

  /** The registration submit handler: an email already on file (compared
      exactly) is refused with an error on the email field; otherwise the
      account is appended. The signed-in user is not touched either way. */
  function Register(b: Browser, v: RegistrationForm): (r: Result<Browser, FieldError>)
    ensures r.Err? <==> exists a | a in b.users :: a.email == v.email
    ensures r.Err? ==> r.error == FieldError("email", EmailTakenMessage)
    ensures r.Ok? ==> r.value.users == b.users + [AccountOf(v)]
    ensures r.Ok? ==> r.value.currentUser == b.currentUser
  {
    if Find(HasEmail(v.email), b.users).Some? then Err(FieldError("email", EmailTakenMessage))
    else Ok(b.(users := b.users + [AccountOf(v)]))
  }

  /** Registration never lets two accounts share an email. */
  lemma RegisterKeepsEmailsDistinct(b: Browser, v: RegistrationForm)
    requires EmailsDistinct(b.users)
    ensures Register(b, v).Ok? ==> EmailsDistinct(Register(b, v).value.users)
  {
    if Register(b, v).Ok? {
      var users := Register(b, v).value.users;
      forall i, j | 0 <= i < j < |users| ensures users[i].email != users[j].email {
        if j == |b.users| {
          assert users[i] in b.users;
        }
      }
    }
  }

  function Matches(email: string, password: string): Account -> bool {
    (a: Account) => a.email == email && a.password == password
  }

  /** Account `i` is the first whose email and password both match. */
  predicate FirstMatch(users: seq<Account>, email: string, password: string, i: int) {
    && 0 <= i < |users|
    && users[i].email == email && users[i].password == password
    && forall j :: 0 <= j < i ==> !(users[j].email == email && users[j].password == password)
  }

  /** The browser store after a login attempt, and the field errors shown
      (none on success). */
  datatype LoginOutcome = LoginOutcome(browser: Browser, errors: seq<FieldError>)

  const LoginErrors := [FieldError("email", BadCredentialsMessage), FieldError("password", BadCredentialsMessage)]

  /** The login submit handler: the first account whose email and password
      both equal the submitted ones (exactly) becomes the signed-in user;
      if there is none, nothing is stored and both fields get the error.
      The account list is never written. */
  function Login(b: Browser, email: string, password: string): (r: LoginOutcome)
    ensures r.errors == [] <==> exists a | a in b.users :: a.email == email && a.password == password
    ensures r.browser.users == b.users
    ensures r.errors == [] ==> exists i :: FirstMatch(b.users, email, password, i) && r.browser.currentUser == Some(b.users[i])
    ensures r.errors != [] ==> r.browser == b && r.errors == LoginErrors
  {
    match IndexOf(Matches(email, password), b.users)
    case None => LoginOutcome(b, LoginErrors)
    case Some(i) => LoginOutcome(b.(currentUser := Some(b.users[i])), [])
  }

  /** A freshly registered account can sign in with the password it chose,
      and it is the account that signs in. */
  lemma RegisterThenLogin(b: Browser, v: RegistrationForm)
    requires Register(b, v).Ok?
    ensures Login(Register(b, v).value, v.email, v.password).errors == []
    ensures Login(Register(b, v).value, v.email, v.password).browser.currentUser == Some(AccountOf(v))
  {
    var users := Register(b, v).value.users;
    var n := |b.users|;
    assert users[n] == AccountOf(v);
    forall j | 0 <= j < n ensures users[j].email != v.email {
      assert users[j] in b.users;
    }
    assert FirstMatch(users, v.email, v.password, n);
  }

  /** With distinct emails, the account that signs in is the one with that
      email, whatever its position. */
  lemma LoginFindsTheAccount(b: Browser, i: nat)
    requires EmailsDistinct(b.users) && i < |b.users|
    ensures Login(b, b.users[i].email, b.users[i].password).browser.currentUser == Some(b.users[i])
  {
    var a := b.users[i];
    assert FirstMatch(b.users, a.email, a.password, i);
  }

  // ---------------------------------------------------------------------
  // The authentication context

  /** An open user object: property name to value. */
  type Profile = map<string, string>

  const DefaultProfileImage := "/assets/images/default-profile.png"

  datatype Session = Session(currentUser: Option<Profile>)

  /** `isAuthenticated: !!currentUser`. */
  predicate IsAuthenticated(s: Session) {
    s.currentUser.Some?
  }

  /** The mock login: a fixed test profile carrying the given email; the
      password is not looked at. */
  function MockProfile(email: string): (p: Profile)
    ensures p.Keys == {"id", "name", "email", "role", "department", "year", "profileImage"}
    ensures p["id"] == "1" && p["email"] == email && p["role"] == "student"
  {
    map["id" := "1", "name" := "Test User", "email" := email, "role" := "student",
        "department" := "Computer Science", "year" := "3rd Year", "profileImage" := DefaultProfileImage]
  }

  function ContextLogin(s: Session, email: string, password: string): (r: (Session, Profile))
    ensures r.0.currentUser == Some(r.1)
    ensures r.1 == MockProfile(email)
  {
    var user := MockProfile(email);
    (Session(Some(user)), user)
  }

  /** `{ id: generated, ...userData, role: 'student', profileImage: default }`. */
  function NewUser(userData: Profile, generatedId: string): (p: Profile)
    ensures p.Keys == userData.Keys + {"id", "role", "profileImage"}
    ensures p["role"] == "student" && p["profileImage"] == DefaultProfileImage
    ensures p["id"] == if "id" in userData then userData["id"] else generatedId
    ensures forall k | k in userData && k != "role" && k != "profileImage" :: p[k] == userData[k]
  {
    map["id" := generatedId] + userData + map["role" := "student", "profileImage" := DefaultProfileImage]
  }

  function ContextRegister(s: Session, userData: Profile, generatedId: string): (r: (Session, Profile))
    ensures r.0.currentUser == Some(r.1)
    ensures r.1 == NewUser(userData, generatedId)
  {
    var user := NewUser(userData, generatedId);
    (Session(Some(user)), user)
  }

  function Logout(s: Session): (r: Session)
    ensures !IsAuthenticated(r)
  {
    Session(None)
  }

  /** The mock login ignores the password entirely. */
  lemma ContextLoginIgnoresPassword(s: Session, email: string, p1: string, p2: string)
    ensures ContextLogin(s, email, p1) == ContextLogin(s, email, p2)
  {
  }

  /** Signing in or registering authenticates, logging out ends it, and
      logging out after either returns to the signed-out session. */
  lemma SessionTransitions(s: Session, email: string, password: string, userData: Profile, generatedId: string)
    ensures IsAuthenticated(ContextLogin(s, email, password).0)
    ensures IsAuthenticated(ContextRegister(s, userData, generatedId).0)
    ensures Logout(ContextLogin(s, email, password).0) == Logout(s) == Session(None)
    ensures Logout(ContextRegister(s, userData, generatedId).0) == Session(None)
  {
  }
}
