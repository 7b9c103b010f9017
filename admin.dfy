/**
 * AdminDashboard.xaml.cs: the administrator's user-creation and password-change forms. Both
 * handlers are ordered guard checks over the form's text; the text boxes, the selected role
 * and the clock are parameters, and message boxes are the outcome values.
 */
module AdminDashboard {
  import opened Wrappers
  import opened Text
  import opened Models
  import opened Database
  import opened Helpers

  /** The first check of `CreateUser_Click` that failed. */
  datatype CreateError = FieldsMissing | EmailInvalid | PasswordTooShort

  /** The account `CreateUser_Click` asks the store to create: the trimmed email and full name,
      the password as typed and the selected role. */
  datatype NewAccount = NewAccount(email: string, password: string, fullName: string, role: string)

  /** The checks of `CreateUser_Click` in their order: no field blank (the role is the selected
      item's content, null when nothing is selected), an '@' in the email, at least 8
      characters of password. */
  function CheckNewAccount(emailText: string, password: string, fullNameText: string, role: Option<string>): Result<NewAccount, CreateError> {
    var email := Trim(emailText);
    var fullName := Trim(fullNameText);
    if IsBlank(email) || IsBlank(password) || IsBlank(fullName) || IsNullOrWhiteSpace(role) then Err(FieldsMissing)
    else if '@' !in email then Err(EmailInvalid)
    else if Utf16Length(password) < 8 then Err(PasswordTooShort)
    else Ok(NewAccount(email, password, fullName, role.value))
  }

  /** An account passes the checks exactly when its trimmed email holds an '@', its password
      has at least 8 characters and is not all white space, its trimmed full name is
      non-empty and a non-blank role is selected; the account then carries those values. */
  lemma CheckNewAccountIff(emailText: string, password: string, fullNameText: string, role: Option<string>)
    ensures var r := CheckNewAccount(emailText, password, fullNameText, role);
      (r.Ok? <==> '@' in Trim(emailText) && !IsBlank(password) && Utf16Length(password) >= 8
                  && Trim(fullNameText) != [] && !IsNullOrWhiteSpace(role))
      && (r.Ok? ==> r.value == NewAccount(Trim(emailText), password, Trim(fullNameText), role.value))
  {
    TrimEmptiesBlank(emailText);
    TrimEmptiesBlank(fullNameText);
    TrimEmptiesBlank(Trim(emailText));
    TrimEmptiesBlank(Trim(fullNameText));
    var email := Trim(emailText);
    if '@' in email {
      var i :| 0 <= i < |email| && email[i] == '@';
      assert !IsWhiteSpace(email[i]);
    }
  }

  /** What `CreateUser_Click` ends in. */
  datatype CreateOutcome = Invalid(error: CreateError) | CreateFailed | Created

  /** The audit details `CreateUser_Click` logs for a created account. */
  function CreatedDetails(a: NewAccount): string {
    "Created new user: " + a.email + " with role: " + a.role
  }

  /** `CreateUser_Click`: the store is asked only once every check has passed; a created
      account is logged as `CREATE_USER` and stored with exactly the selected role. */
  method CreateUserClick(db: DatabaseManager, log: AuditLogger, session: UserSession,
                         emailText: string, password: string, fullNameText: string, role: Option<string>,
                         now: string, logTime: string, appendFails: bool) returns (outcome: CreateOutcome)
    requires db.Valid()
    modifies db`users, db`nextUserId, db`saltsDrawn, log
    ensures db.Valid()
    ensures match CheckNewAccount(emailText, password, fullNameText, role)
      case Err(e) =>
        outcome == Invalid(e) && db.users == old(db.users) && db.nextUserId == old(db.nextUserId)
        && db.saltsDrawn == old(db.saltsDrawn) && log.lines == old(log.lines)
      case Ok(a) =>
        db.saltsDrawn == old(db.saltsDrawn) + 1
        && (outcome == Created <==> SelectFirst(old(db.users), EmailIs(a.email)).None?)
        && (outcome == CreateFailed ==>
              db.users == old(db.users) && db.nextUserId == old(db.nextUserId) && log.lines == old(log.lines))
        && (outcome == Created ==>
              db.users == old(db.users) + [NewUserRow(old(db.nextUserId), a.email, db.hasher.hash(a.password, old(db.saltsDrawn)),
                                                         Some(a.fullName), Some(a.role), now)]
              && StoredRole(Some(a.role)) == a.role
              && db.nextUserId == old(db.nextUserId) + 1
              && log.lines == if !session.IsAuthenticated() || appendFails then old(log.lines)
                              else old(log.lines) + [AuditLine(logTime, session.currentUser.value, "CREATE_USER", CreatedDetails(a))])
  {
    var checked := CheckNewAccount(emailText, password, fullNameText, role);
    match checked
    case Err(e) =>
      return Invalid(e);
    case Ok(a) =>
      var success := db.CreateUser(a.email, a.password, Some(a.fullName), Some(a.role), now);
      if success {
        log.LogAction(session, "CREATE_USER", CreatedDetails(a), logTime, appendFails);
        return Created;
      }
      return CreateFailed;
  }

  /** An account the administrator creates logs in with the password it was given, and reads
      back the full name and the role exactly as entered. */
  lemma AdminCreatedAccountAuthenticates(users: seq<UserRow>, nextId: int, h: Hasher, a: NewAccount, salt: nat, now: string)
    requires WellFormed(users, nextId) && Sound(h)
    requires CheckNewAccount(a.email, a.password, a.fullName, Some(a.role)) == Ok(a)
    requires SelectFirst(users, EmailIs(a.email)).None?
    ensures Authenticate(users + [NewUserRow(nextId, a.email, h.hash(a.password, salt), Some(a.fullName), Some(a.role), now)],
                         h, a.email, a.password)
         == Some(Users(nextId, a.email, a.fullName, a.role, true))
  {
    CreateThenAuthenticate(users, nextId, h, a.email, a.password, salt, Some(a.fullName), Some(a.role), now);
  }

  /** The first check of `ChangePassword_Click` that failed. */
  datatype PasswordError = NotLoggedIn | PasswordFieldsMissing | ConfirmationMismatch | NewPasswordTooShort

  /** The checks of `ChangePassword_Click` in their order: a logged-in user, the three fields
      filled, the confirmation equal to the new password, at least 8 characters; `None` when
      all pass. */
  function CheckPasswordChange(user: Option<SessionUser>, oldPassword: string, newPassword: string, confirmPassword: string): (r: Option<PasswordError>)
    ensures r.None? <==> user.Some? && !IsBlank(oldPassword) && !IsBlank(newPassword)
                         && newPassword == confirmPassword && Utf16Length(newPassword) >= 8
  {
    if user.None? then Some(NotLoggedIn)
    else if IsBlank(oldPassword) || IsBlank(newPassword) || IsBlank(confirmPassword) then Some(PasswordFieldsMissing)
    else if newPassword != confirmPassword then Some(ConfirmationMismatch)
    else if Utf16Length(newPassword) < 8 then Some(NewPasswordTooShort)
    else None
  }

  /** `ChangePassword_Click` as the source has it: the checks, and then nothing. The store is
      not a parameter because the handler never reaches it. */
  method ChangePasswordAsWritten(session: UserSession, oldPassword: string, newPassword: string, confirmPassword: string)
    returns (r: Option<PasswordError>)
    ensures r == CheckPasswordChange(session.currentUser, oldPassword, newPassword, confirmPassword)
  {
    r := CheckPasswordChange(session.currentUser, oldPassword, newPassword, confirmPassword);
    // The handler ends here on every path: no statement after the last check reaches the store.
  }

  /** A hasher that stores the password itself, enough to exhibit the lost change. */
  function PlainHasher(): Hasher {
    Hasher((p: string, salt: nat) => p, (p: string, stored: string) => p == stored)
  }

  /** A logged-in administrator whose row holds "oldpass1" fills in "newpass1" twice: every
      check of the as-written handler passes and the store would allow the change, yet the
      table stays as it was, so the new password is refused at the next login. */
  lemma PasswordChangeIsLost()
    ensures var h := PlainHasher();
      var users := [UserRow(1, "a@b", "oldpass1", Some("A"), Some("Admin"), Some(1), None, None)];
      var admin := SessionUser(Some("1"), Some("a@b"), Some("A"), Some("Admin"));
      CheckPasswordChange(Some(admin), "oldpass1", "newpass1", "newpass1").None?
      && ChangeAllowed(users, h, 1, "oldpass1")
      && Authenticate(users, h, "a@b", "newpass1").None?
  {
    var h := PlainHasher();
    var users := [UserRow(1, "a@b", "oldpass1", Some("A"), Some("Admin"), Some(1), None, None)];
    assert "oldpass1" != "newpass1" by { assert "oldpass1"[0] != "newpass1"[0]; }
    assert SelectFirst(users, UserIdIs(1)) == Some(0);
    assert SelectFirst(users, ActiveEmailIs("a@b")) == Some(0);
  }

  /** A password of four emoji, eight UTF-16 units, passes both forms' length rules. */
  lemma SurrogatePairPasswordAccepted(admin: SessionUser)
    ensures var p := "\U{1F600}\U{1F600}\U{1F600}\U{1F600}";
      CheckNewAccount("a@b", p, "N", Some("Admin")) == Ok(NewAccount("a@b", p, "N", "Admin"))
      && CheckPasswordChange(Some(admin), "oldpass1", p, p).None?
  {
    var p := "\U{1F600}\U{1F600}\U{1F600}\U{1F600}";
    FourEmojiUtf16Length();
    assert !IsWhiteSpace(p[0]);
    assert !IsWhiteSpace("oldpass1"[0]);
    assert Trim("a@b") == "a@b" by { assert !IsWhiteSpace("a@b"[0]) && !IsWhiteSpace("a@b"[2]); }
    assert Trim("N") == "N" by { assert !IsWhiteSpace("N"[0]); }
    assert !IsWhiteSpace("Admin"[0]);
    assert "a@b"[1] == '@';
  }

  /** What the evidently intended handler ends in. */
  datatype ChangeOutcome = Unchecked(error: PasswordError) | OldPasswordRefused | PasswordChanged

  /** `ChangePassword_Click` with the call the form is for: once every check passes, the store
      changes the password of the logged-in user's row `userId`; the new password then logs
      that user in, and nothing else in the table changes. */
  method ChangePasswordClick(db: DatabaseManager, session: UserSession, userId: int,
                             oldPassword: string, newPassword: string, confirmPassword: string)
    returns (outcome: ChangeOutcome)
    requires db.Valid()
    modifies db`users, db`saltsDrawn
    ensures db.Valid()
    ensures match CheckPasswordChange(session.currentUser, oldPassword, newPassword, confirmPassword)
      case Some(e) => outcome == Unchecked(e) && db.users == old(db.users) && db.saltsDrawn == old(db.saltsDrawn)
      case None =>
        (outcome == PasswordChanged <==> ChangeAllowed(old(db.users), db.hasher, userId, oldPassword))
        && (outcome == OldPasswordRefused ==> db.users == old(db.users) && db.saltsDrawn == old(db.saltsDrawn))
        && (outcome == PasswordChanged ==>
              db.users == SetHash(old(db.users), userId, db.hasher.hash(newPassword, old(db.saltsDrawn)))
              && db.saltsDrawn == old(db.saltsDrawn) + 1
              && OnlyRowChanged(old(db.users), db.users, userId)
              && var k := SelectFirst(old(db.users), UserIdIs(userId)).value;
                 old(db.users)[k].isActive == Some(1) ==>
                   Authenticate(db.users, db.hasher, old(db.users)[k].email, newPassword) == Some(UserOf(old(db.users)[k])))
  {
    var r := ChangePasswordAsWritten(session, oldPassword, newPassword, confirmPassword);
    if r.Some? {
      return Unchecked(r.value);
    }
    ghost var before, salt := db.users, db.saltsDrawn;
    var changed := db.ChangePassword(userId, oldPassword, newPassword);
    if !changed {
      return OldPasswordRefused;
    }
    ChangeThenAuthenticate(before, db.nextUserId, db.hasher, userId, oldPassword, newPassword, salt);
    return PasswordChanged;
  }
}
