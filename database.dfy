/**
 * `DatabaseManager`: the credential and claim store, over in-memory Users and Claims tables in
 * place of the SQLite file. A table is a sequence of rows in insertion order; the AUTOINCREMENT
 * counters are fields. BCrypt is an opaque `Hasher` whose random salt is the number of salts
 * drawn so far, and the clock is a `now` parameter.
 */
module Database {
  import opened Wrappers
  import opened Text
  import opened Models

  /** A row of the Users table. The nullable columns are `Option`s. */
  datatype UserRow = UserRow(
    userId: int,
    email: string,
    passwordHash: string,
    fullName: Option<string>,
    role: Option<string>,
    isActive: Option<int>,
    createdDate: Option<string>,
    lastLogin: Option<string>)

  /** A row of the Claims table. */
  datatype ClaimRow = ClaimRow(
    claimId: int,
    lecturerEmail: string,
    lecturerName: string,
    amount: real,
    status: string,
    submissionDate: string,
    description: string,
    hoursWorked: real,
    hourlyRate: real,
    documentCount: int)

  /** BCrypt's `HashPassword` with a given salt, and its `Verify` (which returns false where
      the library throws). */
  datatype Hasher = Hasher(hash: (string, nat) -> string, verify: (string, string) -> bool)

  /** All the model relies on about BCrypt: a hash is never empty and a password verifies
      against its own hash, whatever the salt. */
  ghost predicate Sound(h: Hasher) {
    forall p, salt :: h.hash(p, salt) != [] && h.verify(p, h.hash(p, salt))
  }

  /** The `Email TEXT NOT NULL UNIQUE` constraint; SQLite compares text exactly. */
  predicate EmailsUnique(users: seq<UserRow>) {
    forall i, j :: 0 <= i < j < |users| ==> users[i].email != users[j].email
  }

  /** `UserId INTEGER PRIMARY KEY AUTOINCREMENT`: ids grow in insertion order and stay below
      the next id to be handed out. */
  predicate IdsAscending(users: seq<UserRow>, nextId: int) {
    (forall i, j :: 0 <= i < j < |users| ==> users[i].userId < users[j].userId)
    && (forall i :: 0 <= i < |users| ==> users[i].userId < nextId)
  }

  predicate WellFormed(users: seq<UserRow>, nextId: int) {
    EmailsUnique(users) && IdsAscending(users, nextId)
  }

  /** The WHERE clauses the store runs against Users. */
  datatype Where = EmailIs(email: string) | ActiveEmailIs(email: string) | UserIdIs(id: int)

  predicate Selects(w: Where, row: UserRow) {
    match w
    case EmailIs(e) => row.email == e
    case ActiveEmailIs(e) => row.email == e && row.isActive == Some(1)
    case UserIdIs(id) => row.userId == id
  }

  /** `SELECT ... WHERE w LIMIT 1`: the position of the first row `w` selects. */
  function SelectFirst(users: seq<UserRow>, w: Where): (k: Option<nat>)
    ensures k.Some? ==> k.value < |users| && Selects(w, users[k.value])
    ensures k.Some? ==> forall i :: 0 <= i < k.value ==> !Selects(w, users[i])
    ensures k.None? ==> forall i :: 0 <= i < |users| ==> !Selects(w, users[i])
  {
    if users == [] then None
    else if Selects(w, users[0]) then Some(0)
    else match SelectFirst(users[1..], w)
      case None => None
      case Some(k) => Some(k + 1)
  }

  /** In a table with unique emails and ids, the row an email or an id selects is the only one. */
  lemma SelectUnique(users: seq<UserRow>, nextId: int, w: Where, i: nat)
    requires WellFormed(users, nextId)
    requires i < |users| && Selects(w, users[i])
    ensures SelectFirst(users, w) == Some(i)
  {
    var k := SelectFirst(users, w);
    assert k.Some? && k.value <= i;
  }

  /** The Role column `CreateUser` writes: "Lecturer" for a null or blank role. Never blank. */
  function StoredRole(role: Option<string>): (r: string)
    ensures !IsBlank(r)
    ensures !IsNullOrWhiteSpace(role) ==> r == role.value
  {
    if IsNullOrWhiteSpace(role) then
      assert !IsWhiteSpace("Lecturer"[0]);
      "Lecturer"
    else role.value
  }

  /** The row `CreateUser` inserts: active, a null full name stored as "". */
  function NewUserRow(id: int, email: string, hash: string, fullName: Option<string>, role: Option<string>, now: string): UserRow {
    UserRow(id, email, hash, Some(fullName.GetOr("")), Some(StoredRole(role)), Some(1), Some(now), None)
  }

  /** The `Users` record built from a selected row: a null full name reads as "", a null role
      as "Lecturer", a null active flag as true. */
  function UserOf(row: UserRow): Users {
    Users(row.userId, row.email, row.fullName.GetOr(""), row.role.GetOr("Lecturer"),
          row.isActive.None? || row.isActive.value == 1)
  }

  /** The stored hash is present and the password verifies against it. */
  predicate PasswordMatches(h: Hasher, row: UserRow, password: string) {
    row.passwordHash != [] && h.verify(password, row.passwordHash)
  }

  /** What `AuthenticateUser(email, password)` returns; `None` is its `null`. */
  function Authenticate(users: seq<UserRow>, h: Hasher, email: string, password: string): (r: Option<Users>)
    ensures r.Some? ==> r.value.email == email && r.value.isActive
    ensures r.Some? ==> exists i :: 0 <= i < |users| && users[i].email == email && users[i].isActive == Some(1)
                                    && PasswordMatches(h, users[i], password) && r.value == UserOf(users[i])
  {
    match SelectFirst(users, ActiveEmailIs(email))
    case None => None
    case Some(k) => if PasswordMatches(h, users[k], password) then Some(UserOf(users[k])) else None
  }

  /** Authentication succeeds exactly when an active row with that email holds a hash the
      password verifies against. */
  lemma AuthenticateIff(users: seq<UserRow>, nextId: int, h: Hasher, email: string, password: string)
    requires WellFormed(users, nextId)
    ensures Authenticate(users, h, email, password).Some? <==>
      exists i :: 0 <= i < |users| && users[i].email == email && users[i].isActive == Some(1)
                  && PasswordMatches(h, users[i], password)
  {
    if i :| 0 <= i < |users| && users[i].email == email && users[i].isActive == Some(1)
            && PasswordMatches(h, users[i], password) {
      SelectUnique(users, nextId, ActiveEmailIs(email), i);
    }
  }

  /** `UpdateLastLogin(userId)`: `UPDATE Users SET LastLogin = now WHERE UserId = userId`. */
  function StampLastLogin(users: seq<UserRow>, userId: int, now: string): (r: seq<UserRow>)
    ensures |r| == |users|
  {
    seq(|users|, i requires 0 <= i < |users| =>
      if users[i].userId == userId then users[i].(lastLogin := Some(now)) else users[i])
  }

  /** `UPDATE Users SET PasswordHash = hash WHERE UserId = userId`. */
  function SetHash(users: seq<UserRow>, userId: int, hash: string): (r: seq<UserRow>)
    ensures |r| == |users|
  {
    seq(|users|, i requires 0 <= i < |users| =>
      if users[i].userId == userId then users[i].(passwordHash := hash) else users[i])
  }

  /** `b` differs from `a` at most in the one row keyed `userId`, which keeps its key and email. */
  predicate OnlyRowChanged(a: seq<UserRow>, b: seq<UserRow>, userId: int) {
    |a| == |b|
    && (forall i :: 0 <= i < |a| && a[i].userId != userId ==> b[i] == a[i])
    && (forall i :: 0 <= i < |a| ==> b[i].userId == a[i].userId && b[i].email == a[i].email)
  }

  /** Stamping the last login touches one row, changes nothing authentication reads, and
      keeps the table well formed: a user can log in again after logging in. */
  lemma StampLastLoginKeeps(users: seq<UserRow>, nextId: int, h: Hasher, userId: int, now: string, email: string, password: string)
    requires WellFormed(users, nextId)
    ensures OnlyRowChanged(users, StampLastLogin(users, userId, now), userId)
    ensures WellFormed(StampLastLogin(users, userId, now), nextId)
    ensures Authenticate(StampLastLogin(users, userId, now), h, email, password) == Authenticate(users, h, email, password)
  {
    var r := StampLastLogin(users, userId, now);
    assert forall i :: 0 <= i < |users| ==> Selects(ActiveEmailIs(email), r[i]) == Selects(ActiveEmailIs(email), users[i]);
    assert forall i :: 0 <= i < |users| ==> PasswordMatches(h, r[i], password) == PasswordMatches(h, users[i], password);
    assert forall i :: 0 <= i < |users| ==> UserOf(r[i]) == UserOf(users[i]);
    SelectSameAnswer(users, r, ActiveEmailIs(email));
  }

  /** Two tables on which a WHERE clause selects the same positions give the same first row. */
  lemma SelectSameAnswer(a: seq<UserRow>, b: seq<UserRow>, w: Where)
    requires |a| == |b|
    requires forall i :: 0 <= i < |a| ==> Selects(w, a[i]) == Selects(w, b[i])
    ensures SelectFirst(a, w) == SelectFirst(b, w)
  {
    var ka, kb := SelectFirst(a, w), SelectFirst(b, w);
    if ka.Some? && kb.Some? {
      assert !(ka.value < kb.value) && !(kb.value < ka.value);
    }
  }

  /** `ChangePassword` goes ahead: a row with that id exists, its hash is non-empty, and the
      old password verifies against it. `IsActive` is not consulted. */
  predicate ChangeAllowed(users: seq<UserRow>, h: Hasher, userId: int, oldPassword: string) {
    match SelectFirst(users, UserIdIs(userId))
    case None => false
    case Some(k) => PasswordMatches(h, users[k], oldPassword)
  }

  /** After a password change only that user's hash differs, the table stays well formed, and
      the new password authenticates the user if the account is active. */
  lemma ChangeThenAuthenticate(users: seq<UserRow>, nextId: int, h: Hasher, userId: int, oldPassword: string, newPassword: string, salt: nat)
    requires WellFormed(users, nextId) && Sound(h)
    requires ChangeAllowed(users, h, userId, oldPassword)
    ensures var k := SelectFirst(users, UserIdIs(userId)).value;
      var r := SetHash(users, userId, h.hash(newPassword, salt));
      OnlyRowChanged(users, r, userId) && WellFormed(r, nextId)
      && (users[k].isActive == Some(1) ==> Authenticate(r, h, users[k].email, newPassword) == Some(UserOf(users[k])))
  {
    var k := SelectFirst(users, UserIdIs(userId)).value;
    var r := SetHash(users, userId, h.hash(newPassword, salt));
    if users[k].isActive == Some(1) {
      assert Selects(ActiveEmailIs(users[k].email), r[k]);
      SelectUnique(r, nextId, ActiveEmailIs(users[k].email), k);
      assert r[k] == users[k].(passwordHash := h.hash(newPassword, salt));
    }
  }

  /** Inserting a row whose email is new keeps the table well formed. */
  lemma InsertKeepsWellFormed(users: seq<UserRow>, nextId: int, row: UserRow)
    requires WellFormed(users, nextId)
    requires SelectFirst(users, EmailIs(row.email)).None? && row.userId == nextId
    ensures WellFormed(users + [row], nextId + 1)
  {
    var r := users + [row];
    forall i, j | 0 <= i < j < |r| ensures r[i].email != r[j].email {
      if j == |users| { assert !Selects(EmailIs(row.email), users[i]); }
    }
  }

  /** A row as `CreateUser` writes it authenticates its own password, in any well-formed table. */
  lemma NewRowAuthenticates(users: seq<UserRow>, nextId: int, h: Hasher, k: nat, password: string, salt: nat, fullName: Option<string>, role: Option<string>, now: string)
    requires WellFormed(users, nextId) && Sound(h) && k < |users|
    requires users[k] == NewUserRow(users[k].userId, users[k].email, h.hash(password, salt), fullName, role, now)
    ensures Authenticate(users, h, users[k].email, password)
         == Some(Users(users[k].userId, users[k].email, fullName.GetOr(""), StoredRole(role), true))
  {
    SelectUnique(users, nextId, ActiveEmailIs(users[k].email), k);
  }

  /** A freshly created account authenticates with its password, reading back the stored full
      name and role. */
  lemma CreateThenAuthenticate(users: seq<UserRow>, nextId: int, h: Hasher, email: string, password: string, salt: nat,
                               fullName: Option<string>, role: Option<string>, now: string)
    requires WellFormed(users, nextId) && Sound(h)
    requires SelectFirst(users, EmailIs(email)).None?
    ensures Authenticate(users + [NewUserRow(nextId, email, h.hash(password, salt), fullName, role, now)], h, email, password)
         == Some(Users(nextId, email, fullName.GetOr(""), StoredRole(role), true))
  {
    var row := NewUserRow(nextId, email, h.hash(password, salt), fullName, role, now);
    InsertKeepsWellFormed(users, nextId, row);
    NewRowAuthenticates(users + [row], nextId + 1, h, |users|, password, salt, fullName, role, now);
  }

  /** The four accounts `InitializeDefaultUsers` creates: email, password, full name, role. */
  const DefaultAccounts: seq<(string, string, string, string)> := [
    ("admin@university.ac.za", "Admin@123", "System Administrator", "Admin"),
    ("lecturer@university.ac.za", "Lecturer@123", "Dr. John Lecturer", "Lecturer"),
    ("coordinator@university.ac.za", "Coordinator@123", "Academic Coordinator", "Coordinator"),
    ("manager@university.ac.za", "Manager@123", "Programme Manager", "Manager")
  ]

  /** The default emails are distinct: they differ in their first letter. */
  lemma DefaultEmailsDistinct()
    ensures forall i, j :: 0 <= i < j < |DefaultAccounts| ==> DefaultAccounts[i].0 != DefaultAccounts[j].0
  {
    assert DefaultAccounts[0].0[0] == 'a' && DefaultAccounts[1].0[0] == 'l';
    assert DefaultAccounts[2].0[0] == 'c' && DefaultAccounts[3].0[0] == 'm';
  }

  /** The row default account `i` gets when seeding: id `nextId + i`, the `i`-th salt drawn
      from `draw` on. */
  function DefaultRow(nextId: int, h: Hasher, draw: nat, now: string, i: nat): UserRow
    requires i < |DefaultAccounts|
  {
    var a := DefaultAccounts[i];
    NewUserRow(nextId + i, a.0, h.hash(a.1, draw + i), Some(a.2), Some(a.3), now)
  }

  /** The rows seeding an empty table inserts, in order. */
  function DefaultRows(nextId: int, h: Hasher, draw: nat, now: string): (r: seq<UserRow>)
    ensures |r| == |DefaultAccounts|
    ensures forall i :: 0 <= i < |r| ==> r[i] == DefaultRow(nextId, h, draw, now, i)
  {
    [DefaultRow(nextId, h, draw, now, 0), DefaultRow(nextId, h, draw, now, 1),
     DefaultRow(nextId, h, draw, now, 2), DefaultRow(nextId, h, draw, now, 3)]
  }

  /** The Users table after `InitializeDefaultUsers`: the four accounts if it was empty,
      otherwise as it was. */
  function Seeded(users: seq<UserRow>, nextId: int, h: Hasher, draw: nat, now: string): seq<UserRow> {
    if |users| > 0 then users else DefaultRows(nextId, h, draw, now)
  }

  /** The four default emails are distinct (they differ in their first letter). */
  lemma DefaultRowsWellFormed(nextId: int, h: Hasher, draw: nat, now: string)
    ensures WellFormed(DefaultRows(nextId, h, draw, now), nextId + 4)
  {
    DefaultEmailsDistinct();
  }

  /** The `k`-th `CreateUser` call of the seeding meets none of the emails inserted before it
      and appends the `k`-th default row. */
  lemma SeedStep(nextId: int, h: Hasher, draw: nat, now: string, k: nat)
    requires k < |DefaultAccounts|
    ensures var rows := DefaultRows(nextId, h, draw, now);
      SelectFirst(rows[..k], EmailIs(DefaultAccounts[k].0)).None?
      && rows[..k] + [NewUserRow(nextId + k, DefaultAccounts[k].0, h.hash(DefaultAccounts[k].1, draw + k),
                                 Some(DefaultAccounts[k].2), Some(DefaultAccounts[k].3), now)] == rows[..k + 1]
  {
    DefaultEmailsDistinct();
  }

  /** Seeding a table yields a non-empty well-formed one, and seeding again changes nothing. */
  lemma SeedingIdempotent(users: seq<UserRow>, nextId: int, h: Hasher, draw: nat, draw2: nat, now: string, now2: string)
    requires WellFormed(users, nextId)
    ensures var s := Seeded(users, nextId, h, draw, now);
      |s| > 0 && WellFormed(s, if |users| > 0 then nextId else nextId + 4)
      && Seeded(s, nextId + 4, h, draw2, now2) == s
  {
    DefaultRowsWellFormed(nextId, h, draw, now);
  }

  /** Each seeded account logs in with its documented password and reads back its role. */
  lemma DefaultAccountsAuthenticate(nextId: int, h: Hasher, draw: nat, now: string, i: nat)
    requires Sound(h) && i < |DefaultAccounts|
    ensures var a := DefaultAccounts[i];
      Authenticate(DefaultRows(nextId, h, draw, now), h, a.0, a.1) == Some(Users(nextId + i, a.0, a.2, a.3, true))
  {
    var rows := DefaultRows(nextId, h, draw, now);
    DefaultRowsWellFormed(nextId, h, draw, now);
    var a := DefaultAccounts[i];
    assert !IsBlank(a.3) by { DefaultRolesNotBlank(); }
    NewRowAuthenticates(rows, nextId + 4, h, i, a.1, draw + i, Some(a.2), Some(a.3), now);
  }

  /** The default roles are not blank, so `CreateUser` stores them as given. */
  lemma DefaultRolesNotBlank()
    ensures forall i :: 0 <= i < |DefaultAccounts| ==> !IsBlank(DefaultAccounts[i].3)
  {
    assert DefaultAccounts[0].3[0] == 'A' && DefaultAccounts[1].3[0] == 'L';
    assert DefaultAccounts[2].3[0] == 'C' && DefaultAccounts[3].3[0] == 'M';
  }

  /** The Claims row `SaveClaim` inserts: null texts stored as "", the status by name, the
      documents by count. The claim's own `Id` is not stored; the table numbers its rows. */
  function ClaimRowOf(claimId: int, c: Claim): ClaimRow {
    ClaimRow(claimId, c.lecturerEmail.GetOr(""), c.lecturerName.GetOr(""), c.amount, StatusName(c.status),
             c.submissionDate, c.description.GetOr(""), c.hoursWorked, c.hourlyRate, c.DocumentCount())
  }

  class DatabaseManager {
    const hasher: Hasher
    var users: seq<UserRow>
    var nextUserId: int
    var claims: seq<ClaimRow>
    var nextClaimId: int
    /** How many salts BCrypt has generated so far; the next hash uses this one. */
    var saltsDrawn: nat

    ghost predicate Valid()
      reads this
    {
      Sound(hasher) && WellFormed(users, nextUserId)
      && forall i :: 0 <= i < |claims| ==> claims[i].claimId < nextClaimId
    }

    /** Opens the store on the tables already in the database file and seeds an empty Users
        table with the default accounts. */
    constructor (hasher: Hasher, users: seq<UserRow>, nextUserId: int, claims: seq<ClaimRow>, nextClaimId: int, now: string)
      requires Sound(hasher) && WellFormed(users, nextUserId)
      requires forall i :: 0 <= i < |claims| ==> claims[i].claimId < nextClaimId
      ensures Valid()
      ensures this.users == Seeded(users, nextUserId, hasher, 0, now)
      ensures this.nextUserId == if |users| > 0 then nextUserId else nextUserId + 4
      ensures this.saltsDrawn == if |users| > 0 then 0 else 4
      ensures this.claims == claims && this.nextClaimId == nextClaimId
    {
      this.hasher := hasher;
      this.users := users;
      this.nextUserId := nextUserId;
      this.claims := claims;
      this.nextClaimId := nextClaimId;
      this.saltsDrawn := 0;
      new;
      InitializeDefaultUsers(now);
    }

    /** `CreateUser`: hashes the password with a fresh salt, then inserts the row unless the
        email is taken, in which case the UNIQUE violation is caught and nothing changes. */
    method CreateUser(email: string, password: string, fullName: Option<string>, role: Option<string>, now: string) returns (ok: bool)
      requires Valid()
      modifies this`users, this`nextUserId, this`saltsDrawn
      ensures Valid()
      ensures saltsDrawn == old(saltsDrawn) + 1
      ensures ok <==> SelectFirst(old(users), EmailIs(email)).None?
      ensures ok ==> users == old(users) + [NewUserRow(old(nextUserId), email, hasher.hash(password, old(saltsDrawn)), fullName, role, now)]
                     && nextUserId == old(nextUserId) + 1
      ensures !ok ==> users == old(users) && nextUserId == old(nextUserId)
    {
      var hashed := hasher.hash(password, saltsDrawn);
      saltsDrawn := saltsDrawn + 1;
      if SelectFirst(users, EmailIs(email)).Some? {
        return false;
      }
      var row := NewUserRow(nextUserId, email, hashed, fullName, role, now);
      InsertKeepsWellFormed(users, nextUserId, row);
      users := users + [row];
      nextUserId := nextUserId + 1;
      return true;
    }

    /** `AuthenticateUser`: on success stamps the user's last login. */
    method AuthenticateUser(email: string, password: string, now: string) returns (user: Option<Users>)
      requires Valid()
      modifies this`users
      ensures Valid()
      ensures user == Authenticate(old(users), hasher, email, password)
      ensures users == if user.Some? then StampLastLogin(old(users), user.value.userId, now) else old(users)
    {
      var k := SelectFirst(users, ActiveEmailIs(email));
      if k.None? {
        return None;
      }
      var row := users[k.value];
      if row.passwordHash == [] || !hasher.verify(password, row.passwordHash) {
        return None;
      }
      user := Some(UserOf(row));
      UpdateLastLogin(row.userId, now);
    }

    /** `UpdateLastLogin`. */
    method UpdateLastLogin(userId: int, now: string)
      requires Valid()
      modifies this`users
      ensures Valid()
      ensures users == StampLastLogin(old(users), userId, now)
    {
      StampLastLoginKeeps(users, nextUserId, hasher, userId, now, "", "");
      users := StampLastLogin(users, userId, now);
    }

    /** `ChangePassword`: false, changing nothing, unless the row exists and the old password
        verifies; otherwise the hash of the new password replaces that row's. */
    method ChangePassword(userId: int, oldPassword: string, newPassword: string) returns (ok: bool)
      requires Valid()
      modifies this`users, this`saltsDrawn
      ensures Valid()
      ensures ok == ChangeAllowed(old(users), hasher, userId, oldPassword)
      ensures ok ==> users == SetHash(old(users), userId, hasher.hash(newPassword, old(saltsDrawn)))
                     && saltsDrawn == old(saltsDrawn) + 1
      ensures !ok ==> users == old(users) && saltsDrawn == old(saltsDrawn)
    {
      var k := SelectFirst(users, UserIdIs(userId));
      if k.None? || !PasswordMatches(hasher, users[k.value], oldPassword) {
        return false;
      }
      var newHash := hasher.hash(newPassword, saltsDrawn);
      saltsDrawn := saltsDrawn + 1;
      ChangeThenAuthenticate(users, nextUserId, hasher, userId, oldPassword, newPassword, old(saltsDrawn));
      users := SetHash(users, userId, newHash);
      return true;
    }

    /** `InitializeDefaultUsers`: the four default accounts, only into an empty table. */
    method InitializeDefaultUsers(now: string)
      requires Valid()
      modifies this`users, this`nextUserId, this`saltsDrawn
      ensures Valid()
      ensures users == Seeded(old(users), old(nextUserId), hasher, old(saltsDrawn), now)
      ensures |old(users)| > 0 ==> nextUserId == old(nextUserId) && saltsDrawn == old(saltsDrawn)
      ensures |old(users)| == 0 ==> nextUserId == old(nextUserId) + 4 && saltsDrawn == old(saltsDrawn) + 4
    {
      if |users| > 0 {
        return;
      }
      ghost var id0, draw0 := nextUserId, saltsDrawn;
      CreateDefaultAccount(0, now, id0, draw0);
      CreateDefaultAccount(1, now, id0, draw0);
      CreateDefaultAccount(2, now, id0, draw0);
      CreateDefaultAccount(3, now, id0, draw0);
      assert users == DefaultRows(id0, hasher, draw0, now)[..4];
    }

    /** One of the four `CreateUser` calls of the seeding: account `k` of `DefaultAccounts`,
        which succeeds because the accounts created before it have other emails. */
    method CreateDefaultAccount(k: nat, now: string, ghost id0: int, ghost draw0: nat)
      requires Valid() && k < |DefaultAccounts|
      requires users == DefaultRows(id0, hasher, draw0, now)[..k] && nextUserId == id0 + k && saltsDrawn == draw0 + k
      modifies this`users, this`nextUserId, this`saltsDrawn
      ensures Valid()
      ensures users == DefaultRows(id0, hasher, draw0, now)[..k + 1]
      ensures nextUserId == id0 + k + 1 && saltsDrawn == draw0 + k + 1
    {
      SeedStep(id0, hasher, draw0, now, k);
      var a := DefaultAccounts[k];
      var ok := CreateUser(a.0, a.1, Some(a.2), Some(a.3), now);
    }

    /** `SaveClaim`: appends one Claims row; the Users table is untouched. */
    method SaveClaim(claim: Claim)
      requires Valid()
      modifies this`claims, this`nextClaimId
      ensures Valid()
      ensures claims == old(claims) + [ClaimRowOf(old(nextClaimId), claim)]
      ensures nextClaimId == old(nextClaimId) + 1
    {
      claims := claims + [ClaimRowOf(nextClaimId, claim)];
      nextClaimId := nextClaimId + 1;
    }
  }
}
