/**
 * The application controller of ver2.0/main.py: which view the window shows,
 * the logged-in user, and the login classification.
 */
module Application {
  import opened Common
  import opened Schema
  import opened Queries
  import opened Store
  import opened Gui

  /** The view the main window holds. */
  datatype View = CreateAdminView | LoginView | MainView

  /** How attempt_login classifies a login attempt. */
  datatype LoginOutcome =
    | UnknownUser     // no user has that name
    | LoggedIn        // the password matches and the user is approved
    | PendingApproval // the password matches but the user awaits approval
    | WrongPassword   // the user exists and the password does not match

  /**
   * attempt_login's classification: an unknown name first; then the stored
   * user's status once the password derives the stored hash; a wrong password
   * otherwise. Under the username constraint it is decided by the one row with
   * that name.
   */
  function LoginOutcomeFor(t: Tables, kdf: Kdf, username: string, password: string): (r: LoginOutcome)
    ensures r == UnknownUser <==> forall row | row in t.users :: row.username != username
    ensures UsersConstrained(t.users) ==> forall row | row in t.users && row.username == username ::
              r == if kdf(password, row.salt) != row.passwordHash then WrongPassword
                   else if row.status == Approved then LoggedIn
                   else PendingApproval
  {
    if GetUser(t, username).None? then UnknownUser
    else
      match Authenticate(t, kdf, username, password)
      case None => WrongPassword
      case Some(user) => if user.status == Approved then LoggedIn else PendingApproval
  }

  /** A pending user who can log in is let in once an admin approves the name. */
  lemma ApprovalLetsIn(t: Tables, kdf: Kdf, username: string, password: string)
    requires UsersConstrained(t.users)
    requires LoginOutcomeFor(t, kdf, username, password) == PendingApproval
    ensures LoginOutcomeFor(t.(users := ApprovedIn(t.users, username)), kdf, username, password) == LoggedIn
  {
    var row := UserByName(t.users, username).value;
    var k :| 0 <= k < |t.users| && t.users[k] == row;
    ApprovedConstrained(t.users, username);
    var r := ApprovedIn(t.users, username);
    assert r[k] == row.(status := Approved) && r[k] in r;
  }

  /** A login with the name and password a registration stored finds the user pending. */
  lemma RegisteredIsPending(t: Tables, kdf: Kdf, username: string, password: string, id: Id, contact: Contact)
    requires Authenticate(t, kdf, username, password) == Some(User(id, username, RegularUser, Pending, contact))
    ensures LoginOutcomeFor(t, kdf, username, password) == PendingApproval
  {
  }

  /** What the admin creation form ends with. */
  datatype AdminSubmit = AdminRefused(refusal: AdminFormRefusal) | AdminAdded | AdminFailed(message: string)

  /** App, holding the store and the session. */
  class App {
    const store: Store
    var currentUser: Option<User>
    var view: View

    /** __init__: the create-admin view while there is no admin, the login view otherwise. */
    constructor (store: Store)
      requires store.Valid()
      ensures this.store == store && currentUser.None?
      ensures view == if HasAdmin(store.Snapshot()) then LoginView else CreateAdminView
    {
      this.store := store;
      currentUser := None;
      view := if HasAdmin(store.Snapshot()) then LoginView else CreateAdminView;
    }

    /**
     * attempt_login with the text of the two entries: only an approved user with
     * the right password becomes the current user and reaches the main view;
     * every other outcome leaves the session as it was.
     */
    method AttemptLogin(username: string, password: string) returns (outcome: LoginOutcome)
      requires store.Valid()
      modifies this`currentUser, this`view
      ensures outcome == LoginOutcomeFor(store.Snapshot(), store.kdf, username, password)
      ensures outcome == LoggedIn ==>
                currentUser == Authenticate(store.Snapshot(), store.kdf, username, password)
                && currentUser.Some? && currentUser.value.status == Approved && view == MainView
      ensures outcome != LoggedIn ==> currentUser == old(currentUser) && view == old(view)
    {
      var t := store.Snapshot();
      if GetUser(t, username).None? {
        return UnknownUser;
      }
      var user := Authenticate(t, store.kdf, username, password);
      if user.Some? && user.value.status == Approved {
        currentUser := user;
        view := MainView;
        outcome := LoggedIn;
      } else if user.Some? && user.value.status == Pending {
        outcome := PendingApproval;
      } else {
        outcome := WrongPassword;
      }
    }

    /** logout: no current user, back to the login view. */
    method Logout()
      modifies this`currentUser, this`view
      ensures currentUser.None? && view == LoginView
    {
      currentUser := None;
      view := LoginView;
    }

    /** create_main_menu: the management menu exists only for an admin. */
    function AdminMenuShown(): (r: bool)
      reads this
      ensures r <==> currentUser.Some? && currentUser.value.role == Admin
    {
      currentUser.Some? && IsAdmin(currentUser.value)
    }

    /**
     * CreateAdminView.create_admin: once the form passes, the store creates the
     * admin under the stripped name and the raw password; success moves to the
     * login view, after which has_admin holds.
     */
    method CreateAdminSubmit(usernameText: string, password: string, confirm: string, salt: Bytes)
      returns (r: AdminSubmit)
      requires store.Valid()
      modifies store`users, store`nextUserId, this`view
      ensures store.Valid()
      ensures AdminFormCheck(usernameText, password, confirm).Some? ==>
                r == AdminRefused(AdminFormCheck(usernameText, password, confirm).value)
      ensures AdminFormCheck(usernameText, password, confirm).None? ==>
                (r == AdminAdded <==> old(UserByName(store.users, Strip(usernameText))).None?)
      ensures r == AdminAdded ==>
                && store.users == old(store.users) + [UserRow(old(store.nextUserId), Strip(usernameText),
                                                              store.kdf(password, salt), salt,
                                                              Admin, Approved, AdminContact)]
                && store.nextUserId == old(store.nextUserId) + 1
                && HasAdmin(store.Snapshot()) && view == LoginView
      ensures r.AdminFailed? ==> r.message == UsernameUniqueFailed
      ensures r != AdminAdded ==>
                store.users == old(store.users) && store.nextUserId == old(store.nextUserId) && view == old(view)
    {
      var refusal := AdminFormCheck(usernameText, password, confirm);
      if refusal.Some? {
        return AdminRefused(refusal.value);
      }
      var ok, msg := store.CreateAdmin(Strip(usernameText), password, salt);
      if ok {
        view := LoginView;
        r := AdminAdded;
      } else {
        r := AdminFailed(msg);
      }
    }
  }
}
