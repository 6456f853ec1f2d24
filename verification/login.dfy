/**
 * The Login page (Pages/1.Login.py): a Login form that checks credentials
 * and fills the session, and a Register form that adds a user. A session
 * that is already logged in stops the page before either form.
 */
module LoginPage {
  import opened Wrappers
  import opened Credentials
  import opened SessionGate

  /** The options of the Role select box of the Register form. */
  datatype RoleChoice = UserRole | AdminRole | CybersecurityRole | ItOperationsRole | DataScienceRole

  const RoleOptions: seq<string> := ["user", "admin", "cybersecurity", "it_operations", "data_science"]

  /** The role string each option submits; each is one of the five offered. */
  function RoleName(choice: RoleChoice): (name: string)
    ensures name in RoleOptions
  {
    match choice
    case UserRole => "user"
    case AdminRole => "admin"
    case CybersecurityRole => "cybersecurity"
    case ItOperationsRole => "it_operations"
    case DataScienceRole => "data_science"
  }

  /** Every role offered is submitted by some option. */
  lemma EveryRoleOffered(name: string)
    requires name in RoleOptions
    ensures exists choice :: RoleName(choice) == name
  {
    if name == "user" {
      assert RoleName(UserRole) == name;
    } else if name == "admin" {
      assert RoleName(AdminRole) == name;
    } else if name == "cybersecurity" {
      assert RoleName(CybersecurityRole) == name;
    } else if name == "it_operations" {
      assert RoleName(ItOperationsRole) == name;
    } else {
      assert RoleName(DataScienceRole) == name;
    }
  }

  /** What one run of the page receives: nothing, or one submitted form. */
  datatype Submission =
    | NoSubmission
    | LoginForm(username: string, password: string)
    | RegisterForm(newUsername: string, newPassword: string, confirmation: string, role: RoleChoice, salt: Salt)

  /** The message the page shows. */
  datatype Notice =
    | AlreadyLoggedIn      // "You are already logged in as ..."
    | WelcomeUser(username: string)
    | InvalidCredentials   // "Invalid username or password"
    | StoredHashRejected   // bcrypt raised: the stored value is not a bcrypt hash
    | PasswordsDoNotMatch
    | UserCreated(username: string)
    | UsernameExists       // "Username already exists"
    | NoNotice

  /** One run of the Login page. */
  method Run(s: Session, db: UserStore, submission: Submission) returns (notice: Notice)
    modifies s, db
    ensures IsLoggedIn(old(s.state)) ==>
              notice == AlreadyLoggedIn && s.state == old(s.state) && db.users == old(db.users)
    ensures !IsLoggedIn(old(s.state)) && submission.NoSubmission? ==>
              notice == NoNotice && s.state == old(s.state) && db.users == old(db.users)
    ensures !IsLoggedIn(old(s.state)) && submission.LoginForm? ==>
              var username := submission.username;
              var verdict := Verify(old(db.users), username, submission.password);
              && db.users == old(db.users)
              && (verdict == Some(true) ==>
                    && notice == WelcomeUser(username)
                    && s.state == LoggedInAs(old(s.state), username, RoleValue(RoleOf(db.users, username))))
              && (verdict == Some(false) ==> notice == InvalidCredentials && s.state == old(s.state))
              && (verdict == None ==> notice == StoredHashRejected && s.state == old(s.state))
    ensures !IsLoggedIn(old(s.state)) && submission.RegisterForm? ==>
              var username := submission.newUsername;
              && s.state == old(s.state)
              && (submission.newPassword != submission.confirmation ==>
                    notice == PasswordsDoNotMatch && db.users == old(db.users))
              && (submission.newPassword == submission.confirmation ==>
                    && db.users == Insert(old(db.users), username,
                                          UserRecord(HashPw(submission.newPassword, submission.salt), RoleName(submission.role)))
                    && notice == if username in old(db.users) then UsernameExists else UserCreated(username))
  {
    if LoggedIn in s.state && Truthy(s.state[LoggedIn]) {
      return AlreadyLoggedIn;
    }
    match submission
    case NoSubmission =>
      notice := NoNotice;
    case LoginForm(username, password) =>
      var verdict := db.VerifyUser(username, password);
      if verdict == Some(true) {
        s.state := s.state[LoggedIn := Flag(true)];
        s.state := s.state[Username := Str(username)];
        var role := db.GetUserRole(username);
        s.state := s.state[Role := RoleValue(role)];
        notice := WelcomeUser(username);
      } else if verdict == Some(false) {
        notice := InvalidCredentials;
      } else {
        notice := StoredHashRejected;
      }
    case RegisterForm(username, password, confirmation, role, salt) =>
      if password != confirmation {
        notice := PasswordsDoNotMatch;
      } else {
        var ok := db.RegisterUser(username, password, salt, RoleName(role));
        notice := if ok then UserCreated(username) else UsernameExists;
      }
  }

  /**
   * A successful login stores the role the table holds for that name, never
   * `None`, and keeps any chat history.
   */
  lemma LoginStoresRole(st: State, users: Users, username: string, password: string)
    requires Verify(users, username, password) == Some(true)
    ensures var after := LoggedInAs(st, username, RoleValue(RoleOf(users, username)));
            && IsLoggedIn(after)
            && after[Role] == Str(users[username].role)
            && (HistoryOk(st) ==> HistoryOk(after))
  {
  }
}
