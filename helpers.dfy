/**
 * Helpers.cs: the session (`UserSession`), the role checks built on it
 * (`RequireRoleAttribute`, the load-time gate of the `SecureWindow` base class) and the
 * guard of `AuditLogger.LogAction`. The static members become objects passed to whoever uses
 * them; the log file is a sequence of lines, and whether appending to it fails is a parameter.
 */
module Helpers {
  import opened Wrappers
  import opened Text
  import opened Models

  /** `HasRole` reads `CurrentUser.Role` for each listed role: with a null role and a
      non-empty list, the first comparison throws `NullReferenceException`. */
  datatype Fault = NullReference

  /** Some entry of `roles` equals `role` ignoring case. A null entry matches nothing, as
      `role.Equals(null, StringComparison.OrdinalIgnoreCase)` is false. */
  predicate Lists(roles: seq<Option<string>>, role: string) {
    exists i :: 0 <= i < |roles| && roles[i].Some? && EqualsIgnoreCase(role, roles[i].value)
  }

  /** What `UserSession.HasRole(roles)` returns for the user `user`, or the fault it throws. */
  function RoleCheck(user: Option<SessionUser>, roles: seq<Option<string>>): Result<bool, Fault> {
    if user.None? || roles == [] then Ok(false)
    else if user.value.role.None? then Err(NullReference)
    else Ok(Lists(roles, user.value.role.value))
  }

  /** A role check cannot tell apart two roles that differ only in case. */
  lemma RoleCheckIgnoresCase(u: SessionUser, v: SessionUser, roles: seq<Option<string>>)
    requires u.role.Some? && v.role.Some? && EqualsIgnoreCase(u.role.value, v.role.value)
    ensures RoleCheck(Some(u), roles) == RoleCheck(Some(v), roles)
  {
    if roles != [] && Lists(roles, u.role.value) {
      var i :| 0 <= i < |roles| && roles[i].Some? && EqualsIgnoreCase(u.role.value, roles[i].value);
      EqualsIgnoreCaseIsEquivalence(v.role.value, u.role.value, roles[i].value);
    }
    if roles != [] && Lists(roles, v.role.value) {
      var i :| 0 <= i < |roles| && roles[i].Some? && EqualsIgnoreCase(v.role.value, roles[i].value);
      EqualsIgnoreCaseIsEquivalence(u.role.value, v.role.value, roles[i].value);
    }
  }

  /** `UserSession`: the logged-in user, or none. */
  class UserSession {
    var currentUser: Option<SessionUser>

    constructor ()
      ensures currentUser.None?
    {
      currentUser := None;
    }

    /** `IsAuthenticated`. */
    predicate IsAuthenticated()
      reads this
    {
      currentUser.Some?
    }

    /** The `CurrentUser` setter. */
    method SetCurrentUser(user: Option<SessionUser>)
      modifies this
      ensures currentUser == user
    {
      currentUser := user;
    }

    /** `HasRole(roles)`: false without a user; otherwise whether some listed role equals the
        user's role ignoring case, found by a search that stops at the first match. */
    method HasRole(roles: seq<Option<string>>) returns (r: Result<bool, Fault>)
      ensures r == RoleCheck(currentUser, roles)
      ensures !IsAuthenticated() ==> r == Ok(false)
    {
      if currentUser.None? {
        return Ok(false);
      }
      var i := 0;
      while i < |roles|
        invariant 0 <= i <= |roles|
        invariant i > 0 ==> currentUser.value.role.Some?
        invariant forall j :: 0 <= j < i ==> !(roles[j].Some? && EqualsIgnoreCase(currentUser.value.role.value, roles[j].value))
      {
        if currentUser.value.role.None? {
          return Err(NullReference);
        }
        if roles[i].Some? && EqualsIgnoreCase(currentUser.value.role.value, roles[i].value) {
          return Ok(true);
        }
        i := i + 1;
      }
      return Ok(false);
    }

    /** `Logout`: afterwards nobody is authenticated and every role check is false. */
    method Logout()
      modifies this
      ensures !IsAuthenticated()
      ensures forall roles :: RoleCheck(currentUser, roles) == Ok(false)
    {
      currentUser := None;
    }
  }

  /** `RequireRoleAttribute`: a list of roles checked against the session. */
  class RequireRoleAttribute {
    const roles: seq<Option<string>>

    constructor (roles: seq<Option<string>>)
      ensures this.roles == roles
    {
      this.roles := roles;
    }

    /** `IsAuthorized`: exactly `HasRole(Roles)`. */
    method IsAuthorized(session: UserSession) returns (r: Result<bool, Fault>)
      ensures r == RoleCheck(session.currentUser, roles)
    {
      r := session.HasRole(roles);
    }
  }

  /** What the base window's `Loaded` handler does: nothing (the window stays open), send an
      anonymous visitor back to the login window, deny a user without a required role (also
      back to the login window), or fail with the fault `HasRole` throws. */
  datatype LoadOutcome = Stays | LoginRequired | AccessDenied | Faulted(fault: Fault)

  /** The gate of `SecureWindow_Loaded` for the session user `user`. */
  function Gate(user: Option<SessionUser>, requiredRoles: Option<seq<Option<string>>>): LoadOutcome {
    if user.None? then LoginRequired
    else if requiredRoles.None? || requiredRoles.value == [] then Stays
    else match RoleCheck(user, requiredRoles.value)
      case Err(f) => Faulted(f)
      case Ok(ok) => if ok then Stays else AccessDenied
  }

  /** The gate turns away every anonymous session whatever the roles; it admits a logged-in
      user when no roles are required, and otherwise exactly when the attribute over the same
      roles would authorize that user. */
  lemma GateMatchesAttribute(user: Option<SessionUser>, requiredRoles: Option<seq<Option<string>>>)
    ensures user.None? ==> Gate(user, requiredRoles) == LoginRequired
    ensures user.Some? && (requiredRoles.None? || requiredRoles.value == []) ==> Gate(user, requiredRoles) == Stays
    ensures user.Some? && requiredRoles.Some? && requiredRoles.value != [] ==>
      (Gate(user, requiredRoles) == Stays <==> RoleCheck(user, requiredRoles.value) == Ok(true))
  {
  }

  /** The `SecureWindow` base class: the roles a subclass requires. */
  class SecureWindow {
    const requiredRoles: Option<seq<Option<string>>>

    constructor (requiredRoles: Option<seq<Option<string>>>)
      ensures this.requiredRoles == requiredRoles
    {
      this.requiredRoles := requiredRoles;
    }

    /** `SecureWindow_Loaded`. */
    method Loaded(session: UserSession) returns (outcome: LoadOutcome)
      ensures outcome == Gate(session.currentUser, requiredRoles)
    {
      if !session.IsAuthenticated() {
        return LoginRequired;
      }
      if requiredRoles.Some? && |requiredRoles.value| > 0 {
        var allowed := session.HasRole(requiredRoles.value);
        match allowed
        case Err(f) => return Faulted(f);
        case Ok(ok) => if !ok { return AccessDenied; }
      }
      return Stays;
    }
  }

  /** The line `LogAction` appends: time, the user's email and role (a null one prints as
      nothing), the action and its details. */
  function AuditLine(now: string, user: SessionUser, action: string, details: string): string {
    now + " | User: " + user.email.GetOr("") + " | Role: " + user.role.GetOr("") + " | Action: " + action + " | Details: " + details
  }

  /** `AuditLogger`: the lines of the audit log file. */
  class AuditLogger {
    var lines: seq<string>

    constructor (lines: seq<string>)
      ensures this.lines == lines
    {
      this.lines := lines;
    }

    /** `LogAction`: nothing without a logged-in user; otherwise one line, unless the append
        fails, which is swallowed and leaves the log as it was. `now` is the formatted clock. */
    method LogAction(session: UserSession, action: string, details: string, now: string, appendFails: bool)
      modifies this
      ensures !session.IsAuthenticated() || appendFails ==> lines == old(lines)
      ensures session.IsAuthenticated() && !appendFails ==>
        lines == old(lines) + [AuditLine(now, session.currentUser.value, action, details)]
    {
      if !session.IsAuthenticated() {
        return;
      }
      if !appendFails {
        lines := lines + [AuditLine(now, session.currentUser.value, action, details)];
      }
    }
  }
}
