/**
 * The login form of the home page: two fixed accounts, each with its own
 * role, and a fixed message for every other attempt.
 */
module Login {
  import opened Wrappers
  import opened Session

  const AdminRole := "admin"
  const ViewerRole := "viewer"
  const InvalidCredentialsMessage := "Invalid credentials. Try admin/admin123 or viewer/viewer123"
  const DashboardPath := "/dashboard"

  datatype LoginResult = Granted(role: string) | Rejected

  /** The credential check: exact, case- and space-sensitive comparison with
      the two built-in accounts, whose user name is also their role. */
  function CheckCredentials(username: string, password: string): (r: LoginResult)
    ensures r.Granted? <==>
              (username == "admin" && password == "admin123") || (username == "viewer" && password == "viewer123")
    ensures r.Granted? ==> r.role == username && r.role in {AdminRole, ViewerRole}
  {
    if username == "admin" && password == "admin123" then Granted(AdminRole)
    else if username == "viewer" && password == "viewer123" then Granted(ViewerRole)
    else Rejected
  }

  /** Any variant of a built-in user name in case or surrounding space is
      rejected, whatever the password. */
  lemma VariantsRejected(password: string)
    ensures CheckCredentials("Admin", password).Rejected?
    ensures CheckCredentials(" admin", password).Rejected?
    ensures CheckCredentials("VIEWER", password).Rejected?
    ensures CheckCredentials("viewer ", password).Rejected?
  {
    assert "Admin" != "admin" && " admin" != "admin";
    assert "VIEWER" != "viewer" && "viewer " != "viewer";
  }

  class LoginPage {
    var username: string
    var password: string
    var error: string

    constructor ()
      ensures username == "" && password == "" && error == ""
    {
      username, password, error := "", "", "";
    }

    method SetUsername(value: string)
      modifies this`username
      ensures username == value
    {
      username := value;
    }

    method SetPassword(value: string)
      modifies this`password
      ensures password == value
    {
      password := value;
    }

    /** Submitting the form: the previous error is cleared; an accepted
        account is stored with its role and leads to the dashboard; anything
        else shows the fixed message and touches neither the store nor
        the route. */
    method HandleLogin(store: SessionStore) returns (destination: Option<string>)
      modifies this`error, store
      ensures match CheckCredentials(username, password)
        case Granted(role) =>
          && store.items == old(store.items)[UserRoleKey := role][UsernameKey := username]
          && error == "" && destination == Some(DashboardPath)
        case Rejected =>
          && store.items == old(store.items)
          && error == InvalidCredentialsMessage && destination == None
    {
      error := "";
      var result := CheckCredentials(username, password);
      if result.Granted? {
        store.SetItem(UserRoleKey, result.role);
        store.SetItem(UsernameKey, username);
        destination := Some(DashboardPath);
      } else {
        error := InvalidCredentialsMessage;
        destination := None;
      }
    }
  }
}
