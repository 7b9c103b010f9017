/**
 * MainWindow.xaml.cs: the login window. Its decisions are the input guard of `Login_Click`,
 * the role dispatch of `NavigateToDashboard` and the ordered checks of `Register_Click`. Text
 * boxes and `Interaction.InputBox` answers are parameters (an input box that is cancelled
 * answers ""); which dashboard opens is a value, not a window.
 */
module MainWindow {
  import opened Wrappers
  import opened Text
  import opened Models
  import opened Database

  /** The four dashboards `NavigateToDashboard` can open. */
  datatype Dashboard = LecturerHome | CoordinatorHome | ManagerHome | AdminHome

  /** The role name each dashboard is opened for. */
  function RoleName(d: Dashboard): string {
    match d
    case LecturerHome => "Lecturer"
    case CoordinatorHome => "Coordinator"
    case ManagerHome => "Manager"
    case AdminHome => "Admin"
  }

  /** `NavigateToDashboard`: the role, "" when null, trimmed and matched exactly; any other
      role opens nothing ("Invalid user role."). */
  function DashboardFor(role: Option<string>): Option<Dashboard> {
    var r := Trim(role.GetOr(""));
    if r == "Lecturer" then Some(LecturerHome)
    else if r == "Coordinator" then Some(CoordinatorHome)
    else if r == "Manager" then Some(ManagerHome)
    else if r == "Admin" then Some(AdminHome)
    else None
  }

  /** One of the four role names `Register_Click` accepts. */
  predicate KnownRole(role: string) {
    role == "Lecturer" || role == "Coordinator" || role == "Manager" || role == "Admin"
  }

  /** A role name carries no surrounding white space, so trimming keeps it. */
  lemma RoleNameTrimmed(d: Dashboard)
    ensures Trim(RoleName(d)) == RoleName(d)
  {
    var n := RoleName(d);
    assert !IsWhiteSpace(n[0]) && !IsWhiteSpace(n[|n| - 1]);
  }

  /** Dispatch opens dashboard `d` exactly when the trimmed role is `d`'s name, case and all;
      so the role names are the only roles that open anything, and each opens its own. */
  lemma DispatchIff(role: Option<string>, d: Dashboard)
    ensures DashboardFor(role) == Some(d) <==> Trim(role.GetOr("")) == RoleName(d)
    ensures DashboardFor(role).Some? <==> KnownRole(Trim(role.GetOr("")))
    ensures DashboardFor(Some(RoleName(d))) == Some(d)
  {
    RoleNameTrimmed(d);
  }

  /** A null role, and the empty role, open no dashboard. */
  lemma NoRoleNoDashboard()
    ensures DashboardFor(None) == None && DashboardFor(Some("")) == None
  {
    assert Trim("") == "";
  }

  /** What `Login_Click` ends in: a warning about a missing field (nothing is looked up), a
      failed login, or a welcome followed by the dashboard for the user's role (`None` when
      the role opens none). */
  datatype LoginOutcome = MissingCredentials | InvalidCredentials | Welcomed(user: Users, dashboard: Option<Dashboard>)

  /** The email box after `Text?.Trim()`: null stays null. */
  function TrimmedEmail(emailText: Option<string>): Option<string> {
    if emailText.Some? then Some(Trim(emailText.value)) else None
  }

  /** The decision of `Login_Click` over the Users table `users`. */
  function LoginResult(users: seq<UserRow>, h: Hasher, emailText: Option<string>, password: string): LoginOutcome {
    var email := TrimmedEmail(emailText);
    if IsNullOrWhiteSpace(email) || IsBlank(password) then MissingCredentials
    else match Authenticate(users, h, email.value, password)
      case None => InvalidCredentials
      case Some(user) => Welcomed(user, DashboardFor(Some(user.role)))
  }

  /** A login is attempted only with a non-blank trimmed email and a non-blank password; it
      welcomes a user exactly when an active row holds that email and a hash the password
      verifies against, and then the welcomed user is that row's. */
  lemma LoginIff(users: seq<UserRow>, nextId: int, h: Hasher, emailText: Option<string>, password: string)
    requires WellFormed(users, nextId)
    ensures var o := LoginResult(users, h, emailText, password);
      (o == MissingCredentials <==> emailText.None? || IsBlank(Trim(emailText.value)) || IsBlank(password))
      && (o.Welcomed? <==>
            emailText.Some? && !IsBlank(Trim(emailText.value)) && !IsBlank(password)
            && exists i :: 0 <= i < |users| && users[i].email == Trim(emailText.value)
                           && users[i].isActive == Some(1) && PasswordMatches(h, users[i], password))
      && (o.Welcomed? ==> o.user.email == Trim(emailText.value) && o.user.isActive)
  {
    if emailText.Some? {
      var email := Trim(emailText.value);
      TrimEmptiesBlank(emailText.value);
      TrimEmptiesBlank(email);
      AuthenticateIff(users, nextId, h, email, password);
    }
  }

  /** `Login_Click`: on a missing field nothing is looked up and the table is untouched;
      otherwise the store authenticates, stamping the last login of the user it finds. */
  method Login(db: DatabaseManager, emailText: Option<string>, password: string, now: string) returns (outcome: LoginOutcome)
    requires db.Valid()
    modifies db`users
    ensures db.Valid()
    ensures outcome == LoginResult(old(db.users), db.hasher, emailText, password)
    ensures db.users == if outcome.Welcomed? then StampLastLogin(old(db.users), outcome.user.userId, now) else old(db.users)
  {
    var email := TrimmedEmail(emailText);
    if IsNullOrWhiteSpace(email) || IsBlank(password) {
      return MissingCredentials;
    }
    var user := db.AuthenticateUser(email.value, password, now);
    if user.Some? {
      outcome := Welcomed(user.value, DashboardFor(Some(user.value.role)));
    } else {
      outcome := InvalidCredentials;
    }
  }

  /** The first check of `Register_Click` that failed. */
  datatype RegistrationError = EmailMissing | NameMissing | PasswordTooShort | RoleInvalid

  /** The account `Register_Click` asks the store to create. */
  datatype Registration = Registration(email: string, fullName: string, password: string, role: string)

  /** The password check `Register_Click` applies to the first and to the re-entered answer. */
  predicate PasswordAcceptable(password: string) {
    !IsBlank(password) && Utf16Length(password) >= 8
  }

  /** Four emoji are four characters but eight UTF-16 units, so they pass the length rule. */
  lemma SurrogatePairPassword()
    ensures var p := "\U{1F600}\U{1F600}\U{1F600}\U{1F600}";
      |p| == 4 && Utf16Length(p) == 8 && PasswordAcceptable(p)
  {
    var p := "\U{1F600}\U{1F600}\U{1F600}\U{1F600}";
    FourEmojiUtf16Length();
    assert !IsWhiteSpace(p[0]);
  }

  /** The role after trimming, with a blank answer defaulting to "Lecturer". */
  function RegistrationRole(roleInput: string): string {
    var role := Trim(roleInput);
    Trim(if IsBlank(role) then "Lecturer" else role)
  }

  /** The checks of `Register_Click` in their order: the trimmed email, the trimmed full name,
      the password (the re-entered one when the user answers No to the confirmation), then
      the role, which must be one of the four names. */
  function CheckRegistration(emailInput: string, nameInput: string, passwordInput: string,
                             confirmed: bool, reentered: string, roleInput: string): Result<Registration, RegistrationError> {
    var email := Trim(emailInput);
    var fullName := Trim(nameInput);
    var password := if confirmed then passwordInput else reentered;
    if IsBlank(email) then Err(EmailMissing)
    else if IsBlank(fullName) then Err(NameMissing)
    else if !PasswordAcceptable(passwordInput) then Err(PasswordTooShort)
    else if !PasswordAcceptable(password) then Err(PasswordTooShort)
    else if !KnownRole(RegistrationRole(roleInput)) then Err(RoleInvalid)
    else Ok(Registration(email, fullName, password, RegistrationRole(roleInput)))
  }

  /** A registration is accepted exactly when the trimmed email and full name are non-empty,
      the first password is acceptable, so is the one kept (the re-entered one after a No),
      and the role answer names one of the four roles; the account then carries the trimmed
      texts and the kept password, and its role opens its dashboard. */
  lemma CheckRegistrationIff(emailInput: string, nameInput: string, passwordInput: string,
                             confirmed: bool, reentered: string, roleInput: string)
    ensures var r := CheckRegistration(emailInput, nameInput, passwordInput, confirmed, reentered, roleInput);
      var password := if confirmed then passwordInput else reentered;
      (r.Ok? <==> Trim(emailInput) != [] && Trim(nameInput) != [] && PasswordAcceptable(passwordInput)
                  && PasswordAcceptable(password) && KnownRole(RegistrationRole(roleInput)))
      && (r.Ok? ==> r.value == Registration(Trim(emailInput), Trim(nameInput), password, RegistrationRole(roleInput))
                    && DashboardFor(Some(r.value.role)).Some?)
  {
    var r := CheckRegistration(emailInput, nameInput, passwordInput, confirmed, reentered, roleInput);
    if r.Ok? {
      TrimEmptiesBlank(emailInput);
      TrimEmptiesBlank(nameInput);
      TrimEmptiesBlank(Trim(emailInput));
      TrimEmptiesBlank(Trim(nameInput));
      var d := if r.value.role == "Lecturer" then LecturerHome
        else if r.value.role == "Coordinator" then CoordinatorHome
        else if r.value.role == "Manager" then ManagerHome
        else AdminHome;
      DispatchIff(Some(r.value.role), d);
    }
  }

  /** A blank role answer registers a lecturer, once every earlier check has passed. */
  lemma BlankRoleRegistersLecturer(emailInput: string, nameInput: string, passwordInput: string,
                                   confirmed: bool, reentered: string, roleInput: string)
    requires !IsBlank(emailInput) && !IsBlank(nameInput) && PasswordAcceptable(passwordInput)
    requires PasswordAcceptable(if confirmed then passwordInput else reentered)
    requires IsBlank(roleInput)
    ensures CheckRegistration(emailInput, nameInput, passwordInput, confirmed, reentered, roleInput)
         == Ok(Registration(Trim(emailInput), Trim(nameInput), if confirmed then passwordInput else reentered, "Lecturer"))
  {
    TrimEmptiesBlank(emailInput);
    TrimEmptiesBlank(nameInput);
    TrimEmptiesBlank(roleInput);
    RoleNameTrimmed(LecturerHome);
  }

  /** The account a registration creates logs in at once with the same email and password,
      and the login opens the dashboard the registration opened. */
  lemma RegisteredAccountLogsIn(users: seq<UserRow>, nextId: int, h: Hasher, salt: nat, now: string,
                                emailInput: string, nameInput: string, passwordInput: string,
                                confirmed: bool, reentered: string, roleInput: string)
    requires WellFormed(users, nextId) && Sound(h)
    requires CheckRegistration(emailInput, nameInput, passwordInput, confirmed, reentered, roleInput).Ok?
    requires SelectFirst(users, EmailIs(CheckRegistration(emailInput, nameInput, passwordInput, confirmed, reentered, roleInput).value.email)).None?
    ensures var a := CheckRegistration(emailInput, nameInput, passwordInput, confirmed, reentered, roleInput).value;
      var table := users + [NewUserRow(nextId, a.email, h.hash(a.password, salt), Some(a.fullName), Some(a.role), now)];
      LoginResult(table, h, Some(a.email), a.password)
        == Welcomed(Users(nextId, a.email, a.fullName, a.role, true), DashboardFor(Some(a.role)))
  {
    var a := CheckRegistration(emailInput, nameInput, passwordInput, confirmed, reentered, roleInput).value;
    CheckRegistrationIff(emailInput, nameInput, passwordInput, confirmed, reentered, roleInput);
    TrimIdempotent(emailInput);
    TrimEmptiesBlank(a.email);
    assert !IsBlank(a.role) by {
      assert !IsWhiteSpace(a.role[0]);
    }
    CreateThenAuthenticate(users, nextId, h, a.email, a.password, salt, Some(a.fullName), Some(a.role), now);
  }

  /** What `Register_Click` ends in: a failed check, a refused insert ("Email may already
      exist."), or a created account and the dashboard its role opens. */
  datatype RegisterOutcome = Refused(error: RegistrationError) | EmailTaken | Registered(dashboard: Dashboard)

  /** `Register_Click`: the store is asked to create the account only after every check has
      passed; a created account opens the dashboard of its role at once. */
  method Register(db: DatabaseManager, emailInput: string, nameInput: string, passwordInput: string,
                  confirmed: bool, reentered: string, roleInput: string, now: string) returns (outcome: RegisterOutcome)
    requires db.Valid()
    modifies db`users, db`nextUserId, db`saltsDrawn
    ensures db.Valid()
    ensures var r := CheckRegistration(emailInput, nameInput, passwordInput, confirmed, reentered, roleInput);
      match r
      case Err(e) =>
        outcome == Refused(e) && db.users == old(db.users) && db.nextUserId == old(db.nextUserId)
        && db.saltsDrawn == old(db.saltsDrawn)
      case Ok(a) =>
        db.saltsDrawn == old(db.saltsDrawn) + 1
        && (SelectFirst(old(db.users), EmailIs(a.email)).Some? ==>
              outcome == EmailTaken && db.users == old(db.users) && db.nextUserId == old(db.nextUserId))
        && (SelectFirst(old(db.users), EmailIs(a.email)).None? ==>
              outcome.Registered? && DashboardFor(Some(a.role)) == Some(outcome.dashboard)
              && db.users == old(db.users) + [NewUserRow(old(db.nextUserId), a.email, db.hasher.hash(a.password, old(db.saltsDrawn)),
                                                         Some(a.fullName), Some(a.role), now)]
              && db.nextUserId == old(db.nextUserId) + 1)
  {
    CheckRegistrationIff(emailInput, nameInput, passwordInput, confirmed, reentered, roleInput);
    var checked := CheckRegistration(emailInput, nameInput, passwordInput, confirmed, reentered, roleInput);
    match checked
    case Err(e) =>
      return Refused(e);
    case Ok(a) =>
      var created := db.CreateUser(a.email, a.password, Some(a.fullName), Some(a.role), now);
      if !created {
        return EmailTaken;
      }
      var d := DashboardFor(Some(a.role));
      return Registered(d.value);
  }
}
