/**
 * How the pages meet through the session store: what a login lets the
 * dashboard and the edit page do, and what a logout takes away.
 */
module SessionFlow {
  import opened Session
  import opened Login
  import opened Dashboard
  import opened EditStudent

  /** The store after an accepted login. */
  function AfterLogin(items: map<string, string>, username: string, role: string): map<string, string> {
    items[UserRoleKey := role][UsernameKey := username]
  }

  /** After an accepted login the dashboard admits the session and shows the
      account's role and user name. */
  lemma LoginAdmitsDashboard(items: map<string, string>, username: string, password: string)
    requires CheckCredentials(username, password).Granted?
    ensures DashboardGuard(AfterLogin(items, username, CheckCredentials(username, password).role))
              == Admit(username, username)
  {
    var after := AfterLogin(items, username, username);
    assert after[UserRoleKey] == username && after[UsernameKey] == username;
  }

  /** After a logout the dashboard sends the visitor home, whatever else the
      store holds. */
  lemma LogoutClosesDashboard(items: map<string, string>)
    ensures DashboardGuard(items - {UserRoleKey, UsernameKey}) == RedirectHome
  {
  }

  /** After a logout the edit page sends the visitor to the dashboard. */
  lemma LogoutClosesEditing(items: map<string, string>, id: string)
    ensures EditGuard(items - {UserRoleKey, UsernameKey}, id) == RedirectToDashboard
  {
  }

  /** Only the admin account may edit: after the admin logs in the edit page
      loads the chosen record; after the viewer logs in it redirects. */
  lemma OnlyAdminEdits(items: map<string, string>, username: string, password: string, id: string)
    requires CheckCredentials(username, password).Granted?
    requires id != ""
    ensures var after := AfterLogin(items, username, CheckCredentials(username, password).role);
            EditGuard(after, id) == if username == "admin" then LoadRecordAction(id) else RedirectToDashboard
  {
    var after := AfterLogin(items, username, username);
    assert after[UserRoleKey] == username;
  }

  /** A full visit: log in, open the dashboard, log out. The dashboard loads
      the records between the login and the logout, and the session is gone
      afterwards. */
  method LoginVisitLogout(store: SessionStore, login: LoginPage, dashboard: DashboardPage)
      returns (shown: bool, destination: string)
    requires CheckCredentials(login.username, login.password).Granted?
    modifies store, login`error, dashboard`userRole, dashboard`username
    ensures shown && destination == "/"
    ensures dashboard.userRole == CheckCredentials(login.username, login.password).role
    ensures dashboard.username == login.username
    ensures store.items == old(store.items) - {UserRoleKey, UsernameKey}
    ensures DashboardGuard(store.items) == RedirectHome
  {
    var to := login.HandleLogin(store);
    LoginAdmitsDashboard(old(store.items), login.username, login.password);
    var action := dashboard.Mount(store);
    shown := action == LoadStudents;
    destination := dashboard.HandleLogout(store);
    assert store.items == old(store.items) - {UserRoleKey, UsernameKey};
    LogoutClosesDashboard(old(store.items));
  }
}
