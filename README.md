# Contract Monthly Claim System: a verified model of its core

ContractMonthlyClaimSystem2 is a WPF desktop application. Lecturers use it to submit monthly
claims for the hours they taught. Coordinators and managers review those claims, and an
administrator manages the accounts. This project models the decision logic of the application
in Dafny and proves properties of it. The model covers these parts:

- **The credential and claim store** (`DatabaseManager.cs`) is the class
  `Database.DatabaseManager`.
  - The SQLite Users and Claims tables are sequences of rows.
  - Each table has a counter that plays the role of `AUTOINCREMENT`.
  - BCrypt is an opaque `Hasher` of which the model assumes only that a hash is non-empty and
    that a password verifies against its own hash (`Sound`).
  - The salt BCrypt draws is the class's counter `saltsDrawn`.
  - Every method states the whole new state of the fields it may change. The lemmas beside
    the operations state what the tables then promise: unique emails, exactly one row
    touched, logging in after creating an account or changing its password, and seeding that
    is idempotent.
- **The session and its role checks** (`Helpers.cs`, module `Helpers`):
  - `UserSession` with `HasRole` and `Logout`;
  - `RequireRoleAttribute`;
  - the load-time gate of the `SecureWindow` base class;
  - the guard of `AuditLogger.LogAction`. The audit log file is a sequence of lines.
- **The second window base class** (`SecureWindow.cs`, module `SecureWindow`):
  - its load-time check against the role stored in the encrypted settings;
  - `SecureStorage` over a settings map. AES with the fixed key and IV is an opaque `Cipher`
    that round-trips.
- **The lecturer's claim form** (`LecturerDashboard.xaml.cs`, module `Lecturer`):
  - the upload filter loop;
  - the amount computation, with `decimal.TryParse` and `ToString("F2")` written out;
  - form validation;
  - claim ids;
  - submission, which inserts the claim at the front of the list, saves it and logs it;
  - clearing the form.
- **The login window** (`MainWindow.xaml.cs`, module `MainWindow`): the login guard, the
  dispatch to a dashboard by role, and the ordered checks of self-registration.
- **The administrator's forms** (`AdminDashboard.xaml.cs`, module `AdminDashboard`): the checks
  for creating a user and for changing a password.
- **The three role checks compared** (module `AccessRules`):
  - `HasRole` ignores case.
  - The check of `SecureWindow.cs` is exact and lets an empty role through.
  - The dispatch of the login window trims the role and is exact.
  - The lemmas show where these checks agree and where they part.

### Conventions

- A C# `null` is `None`, and a thrown exception is a `Result` error or a `thrown` flag.
- `decimal` is `real`.
- `DateTime` values, formatted clocks, file sizes and extensions, dialog answers and text-box
  contents are parameters.
- `Wrappers` (`Option`, `Result`) and `Text` are shared helpers:
  - `Text` holds `IsNullOrWhiteSpace`, `Trim`, `string.Length` as a count of UTF-16 units,
    and ordinal equality ignoring case.
  - `Decimals` holds the number scanner used for `decimal.TryParse` (`NumberStyles.Number`
    with the invariant culture's '.' and ',') and the two-decimal formatting.
- `Models` holds the records passed around: `Claim`, `Document`, `ClaimStatus`, the session's
  `User` and the `Users` record.

### Definitions

The specification functions the contracts below are stated in, and the source they model:

| definition | source | models |
|---|---|---|
| Database.UserOf | DatabaseManager.cs:106-113 | the `Users` record read from a row: "" for a null full name, "Lecturer" for a null role, active when the column is null or 1 |
| Database.NewUserRow | DatabaseManager.cs:146-156 | the row `CreateUser` inserts: the hash, the full name ("" for null), the stored role, active, created now, never logged in |
| Database.StampLastLogin | DatabaseManager.cs:126-135 | the table after `UPDATE Users SET LastLogin ... WHERE UserId`: every row with that id gets the time, the others stay |
| Database.SetHash | DatabaseManager.cs:189-196 | the table after `UPDATE Users SET PasswordHash ... WHERE UserId` |
| Database.ChangeAllowed | DatabaseManager.cs:178-186 | the first row with that id exists, its hash is non-empty and the old password verifies against it |
| Database.ClaimRowOf | DatabaseManager.cs:207-221 | the Claims row `SaveClaim` inserts from a claim |
| Database.Seeded | DatabaseManager.cs:228-253 | the Users table after `InitializeDefaultUsers`: as it was when non-empty, else the four default rows |
| Helpers.RoleCheck | Helpers.cs:40-50 | what `HasRole` returns for a session user and a list, or the null-reference fault it throws |
| Helpers.Gate | Helpers.cs:90-117 | the decision of `SecureWindow_Loaded`: log in first, stay, denied, or the fault of `HasRole` |
| Helpers.UserSession.IsAuthenticated | Helpers.cs:38 | a user is set in the session |
| Helpers.AuditLine | Helpers.cs:130 | the line `LogAction` appends: time, the user's email and role, the action and the details, separated by " \| " |
| SecureWindow.Lookup | SecureWindow.cs:51-62 | what `SecureStorage.Get` reads: the decrypted setting, or "" |
| Decimals.ParseDecimal | LecturerDashboard.xaml.cs:128-129 | `decimal.TryParse`: the value when it returns true |
| Decimals.FormatF2 | LecturerDashboard.xaml.cs:130 | `ToString("F2")`: the value rounded half away from zero to cents, with two decimals |
| Lecturer.Acceptable | LecturerDashboard.xaml.cs:90-110 | a selected file passes the upload filters: its extension is on the allow-list ignoring case and it is at most 10 MiB |
| Lecturer.AfterUpload | LecturerDashboard.xaml.cs:95-118 | the uploaded list after one pass of the upload loop over the selection |
| Lecturer.AmountText | LecturerDashboard.xaml.cs:126-133 | the text `CalculateAmount` writes into the amount box |
| Lecturer.LecturerDashboard.NewClaim | LecturerDashboard.xaml.cs:141-165 | the claim `SubmitClaim_Click` builds from the form |
| Lecturer.LecturerDashboard.FormCleared | LecturerDashboard.xaml.cs:214-222 | the form after `ClearClaimForm`: boxes empty, the amount box "" or "0.00", nothing uploaded |
| MainWindow.RoleName | MainWindow.xaml.cs:60-76 | the role name each dashboard is opened for |
| MainWindow.DashboardFor | MainWindow.xaml.cs:49-84 | the dashboard `NavigateToDashboard` opens for a user's role, if any |
| MainWindow.LoginResult | MainWindow.xaml.cs:17-47 | the outcome of `Login_Click`: missing fields, invalid credentials, or the user and the dashboard |
| MainWindow.KnownRole | MainWindow.xaml.cs:145 | the role is exactly one of "Lecturer", "Coordinator", "Manager" and "Admin" |
| MainWindow.PasswordAcceptable | MainWindow.xaml.cs:122-134 | a registration password is not all white space and is at least 8 UTF-16 units long |
| MainWindow.RegistrationRole | MainWindow.xaml.cs:141-143 | the role answer trimmed, "Lecturer" when blank |
| MainWindow.CheckRegistration | MainWindow.xaml.cs:103-150 | the ordered checks of `Register_Click` and the account they let through |
| AdminDashboard.CheckNewAccount | AdminDashboard.xaml.cs:41-61 | the ordered checks of `CreateUser_Click` and the account they let through |

## Model

| member | source | states |
|---|---|---|
| Text.Utf16Length | MainWindow.xaml.cs:122 | `string.Length` counts UTF-16 units: at least one and at most two per character |
| Text.Utf16LengthOfBmp | MainWindow.xaml.cs:122 | on text with no character beyond U+FFFF, `string.Length` is the number of characters |
| Text.FourEmojiUtf16Length | MainWindow.xaml.cs:122 | four emoji have `string.Length` 8 |
| Database.SelectFirst | DatabaseManager.cs:89-99 | the row a `WHERE ... LIMIT 1` query reads is the first row the clause selects, and no earlier row is selected; `None` exactly when no row is selected |
| Database.SelectUnique | DatabaseManager.cs:89-91 | in a table with unique emails and ids, a row selected by email, by active email or by id is the one the query returns |
| Database.StoredRole | DatabaseManager.cs:155 | the stored role is never blank; a null or blank role is stored as "Lecturer" and any other role is stored as given |
| Database.Authenticate | DatabaseManager.cs:84-123 | a returned user has the queried email and is active, and is built from an active row with that email whose non-empty hash verifies the password |
| Database.AuthenticateIff | DatabaseManager.cs:89-104 | authentication succeeds if and only if an active row with that exact email holds a non-empty hash that verifies the password |
| Database.StampLastLoginKeeps | DatabaseManager.cs:126-134 | stamping the last login changes only that user's row, keeps the table well formed and leaves every later authentication answer unchanged |
| Database.ChangeThenAuthenticate | DatabaseManager.cs:171-198 | a password change touches only that user's row, keeps every key and email, and afterwards the new password logs the user in if the account is active |
| Database.InsertKeepsWellFormed | DatabaseManager.cs:146-166 | inserting a row whose email is new, with the next id, keeps emails unique and ids ascending |
| Database.NewRowAuthenticates | DatabaseManager.cs:144-155 | a row written by `CreateUser` authenticates its own password and reads back its full name, stored role and active flag |
| Database.CreateThenAuthenticate | DatabaseManager.cs:137-166 | after creating an account with a new email, that email and password log in, returning the new id, the full name ("" if null) and the stored role |
| Database.DefaultEmailsDistinct | DatabaseManager.cs:244-247 | the four default accounts have pairwise distinct emails |
| Database.DefaultRows | DatabaseManager.cs:244-247 | seeding an empty table inserts exactly the four default accounts, in order, with consecutive ids and salts |
| Database.DefaultRowsWellFormed | DatabaseManager.cs:244-247 | the seeded table has unique emails and ascending ids |
| Database.SeedStep | DatabaseManager.cs:244-247 | each seeding call meets no earlier default email and so appends the next default row |
| Database.SeedingIdempotent | DatabaseManager.cs:235-241 | after seeding, the table is non-empty and well formed, and seeding it again changes nothing |
| Database.DefaultAccountsAuthenticate | DatabaseManager.cs:244-247 | each default account logs in with its documented password and reads back its full name and role |
| Database.DefaultRolesNotBlank | DatabaseManager.cs:244-247 | no default role is blank, so each is stored as given rather than defaulted |
| Database.DatabaseManager.constructor | DatabaseManager.cs:19-35 | opening the store seeds an empty Users table, and then the tables are well formed; the user counter and the salts drawn advance by four exactly when it seeded, and the Claims table and its counter are as found |
| Database.DatabaseManager.CreateUser | DatabaseManager.cs:138-167 | succeeds if and only if no row has that email; on success appends exactly the new active row with a fresh hash; on failure changes no table |
| Database.DatabaseManager.AuthenticateUser | DatabaseManager.cs:84-123 | returns `Authenticate` of the table; only a successful login stamps that user's last login, and a failed one changes nothing |
| Database.DatabaseManager.UpdateLastLogin | DatabaseManager.cs:126-135 | sets the last-login time of the rows with that id and keeps the table well formed |
| Database.DatabaseManager.ChangePassword | DatabaseManager.cs:171-198 | succeeds if and only if the row exists, its hash is non-empty and the old password verifies; only then is that row's hash replaced, otherwise nothing changes |
| Database.DatabaseManager.InitializeDefaultUsers | DatabaseManager.cs:228-253 | inserts the four default accounts only when the Users table is empty, advancing the user counter and the salts drawn by four; otherwise changes nothing |
| Database.DatabaseManager.CreateDefaultAccount | DatabaseManager.cs:244-247 | one seeding call extends the seeded prefix by the next default row |
| Database.DatabaseManager.SaveClaim | DatabaseManager.cs:202-225 | appends exactly one Claims row (null texts as "", status by name, documents by count) with the next id |
| Helpers.RoleCheckIgnoresCase | Helpers.cs:44-49 | two roles that are equal ignoring case get the same answer from every role check |
| Helpers.UserSession.SetCurrentUser | Helpers.cs:36 | the session holds exactly the user set |
| Helpers.UserSession.HasRole | Helpers.cs:40-50 | without a user the answer is false; otherwise it is true if and only if some listed role equals the user's role ignoring case, and a null role throws on a non-empty list |
| Helpers.UserSession.Logout | Helpers.cs:52-55 | afterwards nobody is authenticated and every role check is false |
| Helpers.RequireRoleAttribute.constructor | Helpers.cs:66-69 | the attribute holds the given roles |
| Helpers.RequireRoleAttribute.IsAuthorized | Helpers.cs:71-74 | gives exactly the answer of `HasRole` over its roles |
| Helpers.GateMatchesAttribute | Helpers.cs:90-117 | an anonymous session is sent to log in whatever the roles; a logged-in user stays when no roles are required, and otherwise stays if and only if the role check is true |
| Helpers.SecureWindow.constructor | Helpers.cs:84-88 | the window holds the required roles, null included |
| Helpers.SecureWindow.Loaded | Helpers.cs:90-117 | the load handler's outcome is the gate's decision for the session user |
| Helpers.AuditLogger.LogAction | Helpers.cs:127-141 | without a logged-in user nothing is written; otherwise exactly one line is appended unless the append fails, and a failure is swallowed |
| SecureWindow.SetThenGet | SecureWindow.cs:43-62 | a value set under a declared name reads back as itself, and every other setting reads as before |
| SecureWindow.SecureStorage.Set | SecureWindow.cs:43-49 | a null or empty name changes nothing; an undeclared name throws and changes nothing; otherwise the encrypted value replaces that setting only |
| SecureWindow.SecureStorage.Get | SecureWindow.cs:51-62 | returns the decrypted setting, and "" for an undeclared name, an empty setting or text that does not decrypt |
| SecureWindow.SecureStorage.Remove | SecureWindow.cs:64-68 | overwrites the setting with "", after which it reads as ""; an undeclared name throws and changes nothing |
| SecureWindow.AccessOnLoad | SecureWindow.cs:22-35 | denies, and shuts down, if and only if there are allowed roles, the stored role is non-empty, and no allowed role equals it exactly |
| SecureWindow.Window.constructor | SecureWindow.cs:16-20 | a null roles argument is stored as the empty list |
| SecureWindow.Window.Loaded | SecureWindow.cs:22-35 | the load handler's outcome is that check applied to the stored "UserRole" setting |
| SecureWindow.NeverDeniedWithoutRoles | SecureWindow.cs:25-26 | a window with no allowed roles never denies, and neither does any window while the role setting is missing, empty or undecryptable |
| Decimals.FormatF2ParsesBack | LecturerDashboard.xaml.cs:130 | a two-decimal rendering of a value parses back as that value rounded half away from zero to whole cents |
| Decimals.CentsError | LecturerDashboard.xaml.cs:130 | rounding to cents moves a value by at most half a cent and keeps its sign |
| Decimals.BlankIsNotANumber | LecturerDashboard.xaml.cs:199 | empty or all-white-space text, whatever kind of white space, does not parse as a number |
| Decimals.NumberGrammarEdges | LecturerDashboard.xaml.cs:128-129 | a no-break space is not padding to the number parser, a sign may trail the number but only one sign is read, and ',' groups digits only after the first digit |
| Lecturer.UploadFilterBoundaries | LecturerDashboard.xaml.cs:90-110 | exactly 10 MiB is accepted and one byte more is rejected; the type check ignores case; a missing extension is rejected |
| Lecturer.UploadProperties | LecturerDashboard.xaml.cs:95-118 | an upload keeps the listed paths as a prefix, adds no duplicate, adds only paths of acceptable files, and lists every acceptable selected path |
| Lecturer.LecturerDashboard.UploadDocuments | LecturerDashboard.xaml.cs:94-118 | the loop leaves the uploaded list as one pass of the filter over the selection, and `added` is exactly how much the list grew |
| Lecturer.Product | LecturerDashboard.xaml.cs:128-129 | there is an amount if and only if both boxes parse |
| Lecturer.ShownReadsBack | LecturerDashboard.xaml.cs:130-132 | the shown amount reads back as the amount rounded to cents, and "0.00" reads back as zero |
| Lecturer.AmountTextReadsBack | LecturerDashboard.xaml.cs:126-133 | the amount box reads back as hours times rate rounded to cents, or as 0 when either box does not parse |
| Lecturer.LecturerDashboard.CalculateAmount | LecturerDashboard.xaml.cs:126-133 | sets the amount box to hours times rate with two decimals, or to "0.00" |
| Lecturer.ValidateClaimForm | LecturerDashboard.xaml.cs:197-212 | accepts if and only if the amount parses and is positive and the description is not blank; a missing description is reported only after a valid amount |
| Lecturer.ComputedAmountValidates | LecturerDashboard.xaml.cs:199-209 | a form filled by the amount computation passes if and only if both boxes parse, hours times rate rounds to at least one cent, and the description is not blank |
| Lecturer.Max | LecturerDashboard.xaml.cs:229 | the result bounds every element and is one of them |
| Lecturer.GenerateClaimId | LecturerDashboard.xaml.cs:224-230 | 1001 for no claims; otherwise one more than an existing id and greater than every id |
| Lecturer.FrontInsertKeepsOrder | LecturerDashboard.xaml.cs:167 | inserting a claim with a generated id at the front keeps the list newest first, so ids stay distinct |
| Lecturer.LecturerDashboard.constructor | LecturerDashboard.xaml.cs:21-32 | a new dashboard has no claims, nothing uploaded and an empty form |
| Lecturer.LecturerDashboard.ClearClaimForm | LecturerDashboard.xaml.cs:214-222 | empties the description, hours and rate boxes and the uploaded list and keeps the claims; the amount box ends as "0.00" when clearing a non-empty hours or rate box fired `CalculateAmount`, else "" |
| Lecturer.LecturerDashboard.SubmitClaim | LecturerDashboard.xaml.cs:135-180 | submits if and only if the form validates; a submitted claim has status `Submitted` and goes in front of the older claims, into the store and into the audit log, the store's claim counter advances by one, and the form is cleared as `ClearClaimForm` clears it; the users table, the salts and the lecturer's email and role are outside what it may change; otherwise nothing changes |
| Lecturer.ClearedFormIsRejected | LecturerDashboard.xaml.cs:199-203 | a cleared or new form fails validation on the amount, whether its amount box is empty or shows "0.00" |
| MainWindow.DispatchIff | MainWindow.xaml.cs:58-81 | a dashboard opens if and only if the trimmed role is exactly one of the four role names, and each name opens its own dashboard |
| MainWindow.NoRoleNoDashboard | MainWindow.xaml.cs:58-80 | a null or empty role opens no dashboard |
| MainWindow.LoginIff | MainWindow.xaml.cs:17-47 | no lookup happens if and only if the trimmed email or the password is blank; the user is welcomed if and only if an active row holds that trimmed email and a hash the password verifies |
| MainWindow.Login | MainWindow.xaml.cs:17-47 | the login outcome is that decision; a missing field leaves the table untouched, and only a successful login stamps the user's last login |
| MainWindow.CheckRegistrationIff | MainWindow.xaml.cs:103-150 | a registration is accepted if and only if the trimmed email and name are non-empty, the first password is at least 8 UTF-16 units long (`string.Length`) and not all white space, so is the re-entered one after a No, and the role answer names one of the four roles; the account then carries the trimmed texts, the kept password and that role, which opens its dashboard |
| MainWindow.SurrogatePairPassword | MainWindow.xaml.cs:122-134 | four emoji, four characters but `Length` 8, pass the registration's password rule |
| MainWindow.BlankRoleRegistersLecturer | MainWindow.xaml.cs:141-143 | a blank role answer registers a lecturer once every earlier check passes |
| MainWindow.RegisteredAccountLogsIn | MainWindow.xaml.cs:152-168 | the account a registration creates logs in with the same email and password and opens the same dashboard |
| MainWindow.Register | MainWindow.xaml.cs:103-183 | the store is asked only after every check passes; a failed check changes nothing; a taken email changes no row; a created account opens the dashboard of its role |
| AdminDashboard.CheckNewAccountIff | AdminDashboard.xaml.cs:41-61 | the checks pass if and only if the trimmed email holds an '@', the password is at least 8 UTF-16 units long (`string.Length`) and is not blank, the trimmed name is non-empty and a non-blank role is selected |
| AdminDashboard.CreateUserClick | AdminDashboard.xaml.cs:34-89 | a failed check changes nothing; otherwise the store creates the account if and only if the email is new, storing the selected role as given, and only a created account is logged as `CREATE_USER` |
| AdminDashboard.AdminCreatedAccountAuthenticates | AdminDashboard.xaml.cs:65 | an account the administrator creates logs in with its password and reads back the name and role as entered |
| AdminDashboard.CheckPasswordChange | AdminDashboard.xaml.cs:93-125 | all checks pass if and only if a user is logged in, the three fields are filled, the confirmation equals the new password and it is at least 8 UTF-16 units long (`string.Length`) |
| AdminDashboard.SurrogatePairPasswordAccepted | AdminDashboard.xaml.cs:56-120 | a password of four emoji passes the length rule of both the user-creation and the password-change form |
| AdminDashboard.ChangePasswordAsWritten | AdminDashboard.xaml.cs:91-126 | the handler as written returns the first failed check and has no access to the store |
| AdminDashboard.PasswordChangeIsLost | AdminDashboard.xaml.cs:120-126 | on a concrete input every check passes and the store would allow the change, yet the new password still fails to log in |
| AdminDashboard.ChangePasswordClick | AdminDashboard.xaml.cs:91-126 | once the checks pass, the store changes the password if and only if the old one verifies, replacing that row's hash with a fresh one; the change touches only that user's row, after which the new password logs in; a refused old password or a failed check changes nothing |
| AccessRules.ExactAdmitImpliesHasRole | SecureWindow.cs:26-28 | where the exact check admits a non-empty role against a non-empty list, `HasRole` admits it too |
| AccessRules.CaseDisagreement | Helpers.cs:46 | "admin" passes `HasRole` for "Admin", while the exact check shuts the application down and the dispatch opens nothing |
| AccessRules.EmptyRoleDisagreement | SecureWindow.cs:26 | the empty role always passes the exact check, while `HasRole` and the base-class gate refuse it for any list without "" |
| AccessRules.PaddedRoleDisagreement | MainWindow.xaml.cs:58 | " Admin" opens the administrator's dashboard, while both role checks refuse it |
| AccessRules.DispatchedRolePassesChecks | MainWindow.xaml.cs:58-76 | a role that opens a dashboard and has no surrounding white space passes both role checks for that dashboard's role name |

## Left out

- BCrypt hashing and verification are not modelled. They are the opaque `Hasher`. The model
  assumes only that a hash is non-empty and that a password verifies against its own hash.
  Verification of a wrong password is unconstrained.
- AES encryption with the fixed key and IV, and the Base64 coding, are not modelled. They are
  the opaque `Cipher`, assumed only to round-trip.
- SQLite itself is not modelled: connections, `EnsureDatabase`, `CREATE TABLE` and the database
  file. The tables are sequences in memory.
- A SQLite failure other than the UNIQUE violation caught by `CreateUser` is not modelled. That
  includes the errors `InitializeDefaultUsers` swallows and those `SubmitClaim_Click` catches
  after inserting the claim into its list.
- Database.DatabaseManager.SaveClaim: stores amounts as `real`, without the `Convert.ToDouble`
  rounding to binary floating point.
- `decimal` is exact `real`. The 28-digit range and scale of `decimal`, and overflow of
  `hours * rate`, are not modelled.
- Decimals.ParseDecimal: follows `decimal.TryParse` with `NumberStyles.Number` under the
  invariant culture only: white space U+0009..U+000D and U+0020 around the number, one sign
  before or after it, digits with ',' group separators after the first digit, at most one
  '.', and trailing NUL characters. The current culture's own separators and signs are not
  modelled.
- Lecturer.LecturerDashboard.CalculateAmount: the window's XAML is not part of this model. The
  handler is taken to be the `TextChanged` handler of the hours and rate boxes, as its
  signature says, and a box fires it only when its text changes. Typing into those boxes is
  not modelled; `ClearClaimForm` models the two changes clearing makes.
- Text.EqualsIgnoreCase folds only ASCII letters, while .NET's ordinal comparison ignoring case
  folds all of Unicode. Every role name and file extension compared here is ASCII.
- Lecturer.GenerateClaimId: does not model 32-bit overflow of `max + 1`. Ids stay far below
  2^31 in use.
- The clock is a parameter, not modelled: `DateTime.Now`/`UtcNow` and the "o",
  "yyyy-MM-dd HH:mm:ss" and "N2" formats.
- `Guid.NewGuid` and the file system are parameters. `Path.GetExtension`, `Path.GetFileName`
  and `FileInfo.Length` are the `SelectedFile` fields, or come from the `inspect` function.
- `decimal.ToString()` in the audit details is the parameter `decimalText`.
- UI is not modelled: message boxes, windows being shown and closed,
  `Application.Current.Shutdown`, the `lstDocuments` list box, the welcome labels,
  `Window_Loaded` of the login window (it only clears two boxes and shows the default
  credentials), and `Logout_Click`.
- Opening a dashboard is the value `Dashboard`. The coordinator's and manager's dashboards are
  not part of this model.
- Dialogs are inputs: `Interaction.InputBox` answers are strings ("" on cancel), the
  confirmation is a boolean, and `OpenFileDialog` returning false is not modelled (nothing
  happens then).
- `LoadExistingClaims` is not modelled. It only loads fixed demo data.
- Claim review is not modelled: approve, reject and mark-paid appear in none of `DatabaseManager.cs`,
  `Helpers.cs`, `SecureWindow.cs`, `LecturerDashboard.xaml.cs`, `MainWindow.xaml.cs` and
  `AdminDashboard.xaml.cs`, the six files modelled here.
- `AuditLogger.LogLogin` is not modelled. None of the six modelled files calls it.
- `Input-Dialog.xaml.cs` is not modelled. It is a text box and a dialog result.
- Null email and password arguments to the store are not modelled. Every caller among the six
  modelled files passes non-null text.
- The `Properties.Settings` schema is not modelled. The settings map's keys are the declared
  setting names, and `Save()` is I/O.
- `UserSession.CurrentUser` is never assigned by any of the six modelled files: `Login_Click`
  does not set it. The session therefore starts empty and changes only through `SetCurrentUser` and
  `Logout`. In the application as written, `LogAction` writes nothing and
  `ChangePassword_Click` always stops at its first check.
- AdminDashboard.ChangePasswordClick: takes the logged-in user's row id as a parameter. The
  session's `User.Id` is a string, and the source shows no conversion to the store's integer
  key.

## Findings

| source | as written | input that shows it | evidently intended | confidence | as-written member | corrected member |
|---|---|---|---|---|---|---|
| AdminDashboard.xaml.cs:91-126 | `ChangePassword_Click` runs its four checks and then returns without calling `DatabaseManager.ChangePassword`, so no password is ever changed | a session whose `CurrentUser` is an administrator whose stored password is "oldpass1" (none of the six modelled files sets `CurrentUser`, so other code must set it; without it the handler stops at its first check) enters "oldpass1", "newpass1", "newpass1": every check passes and no error is shown, yet "newpass1" is still refused at the next login | after the checks, call the store's `ChangePassword` for the logged-in user and report whether the old password was accepted | high; not executed | AdminDashboard.ChangePasswordAsWritten, AdminDashboard.PasswordChangeIsLost | AdminDashboard.ChangePasswordClick |
