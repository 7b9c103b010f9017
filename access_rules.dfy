/**
 * The three role checks of the application side by side: the session's `HasRole` (Helpers.cs,
 * used by `RequireRoleAttribute` and the `SecureWindow` base class there), the load-time check
 * of SecureWindow.cs over the encrypted settings, and the dashboard dispatch of
 * MainWindow.xaml.cs. They agree in one direction only: the lemmas below say where.
 */
module AccessRules {
  import opened Wrappers
  import opened Text
  import opened Models
  import H = Helpers
  import S = SecureWindow
  import M = MainWindow

  /** A session user whose only known field is the role. */
  function UserWithRole(role: string): SessionUser {
    SessionUser(None, None, None, Some(role))
  }

  /** Where the exact check of SecureWindow.cs admits a non-empty role against a non-empty
      list, `HasRole` admits it too: exact equality is one case of equality ignoring case. */
  lemma ExactAdmitImpliesHasRole(allowed: seq<Option<string>>, role: string)
    requires allowed != [] && role != []
    requires S.AccessOnLoad(allowed, role) == S.Granted
    ensures H.RoleCheck(Some(UserWithRole(role)), allowed) == Ok(true)
  {
    var i :| 0 <= i < |allowed| && allowed[i] == Some(role);
    EqualsIgnoreCaseIsEquivalence(role, role, role);
    assert H.Lists(allowed, role);
  }

  /** The converse fails on case: "admin" passes `HasRole` for the list ["Admin"], while the
      check of SecureWindow.cs shuts the application down and the dispatch opens nothing. */
  lemma CaseDisagreement()
    ensures H.RoleCheck(Some(UserWithRole("admin")), [Some("Admin")]) == Ok(true)
    ensures S.AccessOnLoad([Some("Admin")], "admin") == S.DeniedShutdown
    ensures M.DashboardFor(Some("admin")) == None
  {
    assert EqualsIgnoreCase("admin", "Admin") by {
      forall i | 0 <= i < 5 ensures UpperAscii("admin"[i]) == UpperAscii("Admin"[i]) {
        assert i == 0 || "admin"[i] == "Admin"[i];
      }
    }
    var roles := [Some("Admin")];
    assert roles[0].Some? && EqualsIgnoreCase("admin", roles[0].value);
    assert "admin" != "Admin" by { assert "admin"[0] != "Admin"[0]; }
    M.RoleNameTrimmed(M.AdminHome);
    assert Trim("admin") == "admin" by {
      assert !IsWhiteSpace("admin"[0]) && !IsWhiteSpace("admin"[4]);
    }
  }

  /** The empty role: SecureWindow.cs lets it through whatever the list (this is also what a
      missing or undecryptable setting reads as), while `HasRole` admits it only when the
      list holds "" itself, so the gate of Helpers.cs turns it away from any list without "". */
  lemma EmptyRoleDisagreement(allowed: seq<Option<string>>)
    requires allowed != []
    requires forall i :: 0 <= i < |allowed| ==> allowed[i] != Some("")
    ensures S.AccessOnLoad(allowed, "") == S.Granted
    ensures H.RoleCheck(Some(UserWithRole("")), allowed) == Ok(false)
    ensures H.Gate(Some(UserWithRole("")), Some(allowed)) == H.AccessDenied
  {
  }

  /** White space around a role: the dispatch trims it and opens the administrator's
      dashboard, while both role checks compare the untrimmed text and refuse it. */
  lemma PaddedRoleDisagreement()
    ensures M.DashboardFor(Some(" Admin")) == Some(M.AdminHome)
    ensures S.AccessOnLoad([Some("Admin")], " Admin") == S.DeniedShutdown
    ensures H.RoleCheck(Some(UserWithRole(" Admin")), [Some("Admin")]) == Ok(false)
  {
    assert IsWhiteSpace(" Admin"[0]) && " Admin"[1..] == "Admin";
    M.RoleNameTrimmed(M.AdminHome);
    assert !EqualsIgnoreCase(" Admin", "Admin");
  }

  /** A role that opens a dashboard and carries no surrounding white space passes every
      check for that dashboard's role name: the exact one and the one ignoring case. */
  lemma DispatchedRolePassesChecks(role: string, d: M.Dashboard)
    requires Trim(role) == role
    requires M.DashboardFor(Some(role)) == Some(d)
    ensures S.AccessOnLoad([Some(M.RoleName(d))], role) == S.Granted
    ensures H.RoleCheck(Some(UserWithRole(role)), [Some(M.RoleName(d))]) == Ok(true)
  {
    M.DispatchIff(Some(role), d);
    EqualsIgnoreCaseIsEquivalence(role, role, role);
    assert H.Lists([Some(M.RoleName(d))], role);
  }
}
