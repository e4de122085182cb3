/** The login screen's submit handler: a two-mode (Login / Register) state
    machine held in the submit button's text, talking to the credential store
    through three background calls that turn every failure into a sentinel. */
module Login {
  import opened Java
  import opened Users

  /** The two texts of the submit button (`R.string.register`, `R.string.login`). */
  const REGISTER_TEXT: string := "Register"
  const LOGIN_TEXT: string := "Login"

  /** What one background store call produced: `future.get()` returned a
      value, or it threw. */
  datatype Answer<+T> = Returned(value: T) | Threw

  /** What the store answers, during one click, to each call the handler may make. */
  datatype StoreAnswers = StoreAnswers(users: Answer<seq<User>>, lookup: Answer<Option<User>>, insertRowId: Answer<int>)

  /** A call that reached the store, with what the store was given. */
  datatype StoreCall = ListUsers | LookupUser(name: string) | InsertUser(user: Option<string>, hash: Option<string>)

  /** `getUsers()`: the listed users; an empty list when the call failed. */
  function GetUsers(a: Answer<seq<User>>): seq<User>
  {
    if a.Returned? then a.value else []
  }

  /** `getDbUser(name)`: the row found, or null when none was found or the call failed. */
  function GetDbUser(a: Answer<Option<User>>): Option<User>
  {
    if a.Returned? then a.value else None
  }

  /** `createUser(user)`: true exactly when the insert returned a positive row id. */
  function CreateUser(a: Answer<int>): bool
  {
    a.Returned? && a.value > 0
  }

  /** Some listed user has username `name` (`Objects.equals`, null-safe). */
  predicate UsernameTaken(users: seq<User>, name: Option<string>)
  {
    exists i :: 0 <= i < |users| && users[i].user == name
  }

  /** The duplicate scan: stops at the first user carrying `name`. */
  method FindUsername(users: seq<User>, name: Option<string>) returns (hasUser: bool)
    ensures hasUser == UsernameTaken(users, name)
  {
    hasUser := false;
    var i := 0;
    while i < |users|
      invariant 0 <= i <= |users|
      invariant forall j :: 0 <= j < i ==> users[j].user != name
    {
      if users[i].user == name {
        hasUser := true;
        break;
      }
      i := i + 1;
    }
  }

  /** How one click on the submit button ends. */
  datatype Verdict =
    | PasswordsDiffer
    | UsernameInUse
    | Registered
    | RegistrationFailed
    | LoggedIn(userId: Int32)
    | LoginRejected
      /** `equals` dereferenced the entered user's null hash (SHA-256
          unavailable): the exception escapes the click handler. */
    | CrashedOnNullHash

  /** The Toast a verdict shows. */
  function ToastFor(v: Verdict): seq<string>
  {
    match v
    case PasswordsDiffer => ["Supplied passwords not equal."]
    case UsernameInUse => ["Pick another Username."]
    case Registered => ["Success"]
    case RegistrationFailed => ["Failure, please try again."]
    case LoggedIn(_) => []
    case LoginRejected => ["Incorrect, please try again."]
    case CrashedOnNullHash => []
  }

  /** A click's verdict and the store calls it made, in order. */
  datatype Decision = Decision(verdict: Verdict, calls: seq<StoreCall>)

  /** What a click on the submit button does, given the button text, the three
      text fields, the platform's hashing and the store's answers. */
  function Decide(buttonText: string, name: string, password: string, confirm: string,
                  crypto: Crypto, answers: StoreAnswers): (d: Decision)
    ensures buttonText == REGISTER_TEXT ==>
      d.verdict in {PasswordsDiffer, UsernameInUse, Registered, RegistrationFailed}
    ensures buttonText != REGISTER_TEXT ==>
      d.verdict.LoggedIn? || d.verdict == LoginRejected || d.verdict == CrashedOnNullHash
    ensures d.verdict == PasswordsDiffer <==> buttonText == REGISTER_TEXT && password != confirm
    ensures d.calls == [] <==> d.verdict == PasswordsDiffer
    ensures d.calls != [] ==> d.calls[0] == if buttonText == REGISTER_TEXT then ListUsers else LookupUser(name)
  {
    if buttonText == REGISTER_TEXT then
      if password != confirm then Decision(PasswordsDiffer, [])
      else if UsernameTaken(GetUsers(answers.users), Some(name)) then Decision(UsernameInUse, [ListUsers])
      else
        var calls := [ListUsers, InsertUser(Some(name), PasswordHash(password, crypto))];
        Decision(if CreateUser(answers.insertRowId) then Registered else RegistrationFailed, calls)
    else
      var calls := [LookupUser(name)];
      match GetDbUser(answers.lookup)
      case None => Decision(LoginRejected, calls)
      case Some(db) =>
        match FieldsEqual(Some(name), PasswordHash(password, crypto), db)
        case NullPointer => Decision(CrashedOnNullHash, calls)
        case Value(same) => Decision(if same then LoggedIn(db.id) else LoginRejected, calls)
  }

  /** How many of `calls` are inserts. */
  function InsertCount(calls: seq<StoreCall>): nat
  {
    if calls == [] then 0
    else (if calls[0].InsertUser? then 1 else 0) + InsertCount(calls[1..])
  }

  /** Different passwords: the message, and no store call at all. */
  lemma MismatchedPasswordsSkipStore(name: string, password: string, confirm: string,
                                     crypto: Crypto, answers: StoreAnswers)
    requires password != confirm
    ensures Decide(REGISTER_TEXT, name, password, confirm, crypto, answers) == Decision(PasswordsDiffer, [])
    ensures ToastFor(PasswordsDiffer) == ["Supplied passwords not equal."]
  {
  }

  /** With matching passwords, the name is rejected exactly when a listed user
      carries it, and then only the listing reaches the store. */
  lemma DuplicateUsernameBlocksInsert(name: string, password: string, crypto: Crypto, answers: StoreAnswers)
    ensures var d := Decide(REGISTER_TEXT, name, password, password, crypto, answers);
      && (d.verdict == UsernameInUse <==> UsernameTaken(GetUsers(answers.users), Some(name)))
      && (d.verdict == UsernameInUse ==> d.calls == [ListUsers] && InsertCount(d.calls) == 0)
  {
  }

  /** Insertion is attempted at most once per click, and exactly when the
      button says Register, the passwords match and the name is free; the
      inserted row carries the entered name and the hash of the password,
      and registration succeeds exactly when the insert gave a positive row id. */
  lemma InsertOnlyWhenChecksPass(buttonText: string, name: string, password: string, confirm: string,
                                 crypto: Crypto, answers: StoreAnswers)
    ensures var d := Decide(buttonText, name, password, confirm, crypto, answers);
      && InsertCount(d.calls) <= 1
      && (InsertCount(d.calls) == 1 <==>
            buttonText == REGISTER_TEXT && password == confirm && !UsernameTaken(GetUsers(answers.users), Some(name)))
      && (InsertCount(d.calls) == 1 ==>
            InsertUser(Some(name), PasswordHash(password, crypto)) in d.calls
            && (d.verdict == Registered <==> answers.insertRowId.Returned? && answers.insertRowId.value > 0))
  {
    var d := Decide(buttonText, name, password, confirm, crypto, answers);
    if buttonText == REGISTER_TEXT && password == confirm && !UsernameTaken(GetUsers(answers.users), Some(name)) {
      assert d.calls[1..][1..] == [];
      assert InsertCount(d.calls[1..]) == 1;
    }
  }

  /** A failed or empty lookup rejects the login: `getDbUser` hands back null,
      nobody is let in and no crash can follow. */
  lemma MissingRowRejectsLogin(buttonText: string, name: string, password: string, confirm: string,
                               crypto: Crypto, answers: StoreAnswers)
    requires buttonText != REGISTER_TEXT
    requires answers.lookup.Threw? || answers.lookup == Returned(None)
    ensures Decide(buttonText, name, password, confirm, crypto, answers) == Decision(LoginRejected, [LookupUser(name)])
    ensures ToastFor(LoginRejected) == ["Incorrect, please try again."]
  {
  }

  /** A failed insert, or one giving a row id that is not positive, makes
      `createUser` report false: the insert was still attempted, and the
      user is asked to try again. */
  lemma FailedInsertReportsFailure(name: string, password: string, crypto: Crypto, answers: StoreAnswers)
    requires !UsernameTaken(GetUsers(answers.users), Some(name))
    requires answers.insertRowId.Threw? || answers.insertRowId.value <= 0
    ensures Decide(REGISTER_TEXT, name, password, password, crypto, answers)
              == Decision(RegistrationFailed, [ListUsers, InsertUser(Some(name), PasswordHash(password, crypto))])
    ensures ToastFor(RegistrationFailed) == ["Failure, please try again."]
  {
  }

  /** A failed listing reads as "nobody registered", so the insert is tried. */
  lemma FailedListingPassesDuplicateCheck(name: string, password: string, crypto: Crypto, answers: StoreAnswers)
    requires answers.users.Threw?
    ensures InsertUser(Some(name), PasswordHash(password, crypto))
              in Decide(REGISTER_TEXT, name, password, password, crypto, answers).calls
  {
  }

  /** In Login mode the store is asked for the entered name only, and the
      login succeeds exactly when a row came back whose username is the
      entered one and whose hash is the hash of the entered password; the id
      handed on is that row's. */
  lemma LoginSucceedsIffCredentialsMatch(buttonText: string, name: string, password: string, confirm: string,
                                         crypto: Crypto, answers: StoreAnswers)
    requires buttonText != REGISTER_TEXT
    ensures var d := Decide(buttonText, name, password, confirm, crypto, answers);
      && d.calls == [LookupUser(name)]
      && (d.verdict.LoggedIn? <==>
            answers.lookup.Returned? && answers.lookup.value.Some?
            && answers.lookup.value.value.user == Some(name)
            && crypto.sha256.Some?
            && answers.lookup.value.value.hash == PasswordHash(password, crypto))
      && (d.verdict.LoggedIn? ==> d.verdict.userId == answers.lookup.value.value.id)
      && (d.verdict == CrashedOnNullHash ==> crypto.sha256.None?)
      && (d.verdict.LoggedIn? || d.verdict == LoginRejected || d.verdict == CrashedOnNullHash)
  {
  }

  /** A user registered in one click can log in, in a later click, once the
      store hands back the row it was given. */
  lemma RegisterThenLogin(name: string, password: string, crypto: Crypto,
                          atRegister: StoreAnswers, atLogin: StoreAnswers, row: User)
    requires crypto.sha256.Some?
    requires Decide(REGISTER_TEXT, name, password, password, crypto, atRegister).verdict == Registered
    requires InsertUser(row.user, row.hash) in Decide(REGISTER_TEXT, name, password, password, crypto, atRegister).calls
    requires atLogin.lookup == Returned(Some(row))
    ensures Decide(LOGIN_TEXT, name, password, "", crypto, atLogin).verdict == LoggedIn(row.id)
  {
  }

  class LoginScreen {
    var buttonText: string
    var userText: string
    var passwordText: string
    var confirmText: string
    /** Every Toast shown, oldest first. */
    var toasts: seq<string>
    /** The USER_ID handed to every MainActivity started. */
    var launched: seq<Int32>
    /** An exception escaped a click handler. */
    var crashed: bool
    /** Every call that reached the credential store, oldest first. */
    ghost var storeCalls: seq<StoreCall>

    /** The button starts with the text the layout gives it, taken to be the
        Login text. */
    constructor ()
      ensures buttonText == LOGIN_TEXT && userText == "" && passwordText == "" && confirmText == ""
      ensures toasts == [] && launched == [] && !crashed && storeCalls == []
    {
      buttonText := LOGIN_TEXT;
      userText, passwordText, confirmText := "", "", "";
      toasts, launched, crashed := [], [], false;
      storeCalls := [];
    }

    /** The user edits the three text fields. */
    method Type(user: string, password: string, confirm: string)
      modifies this`userText, this`passwordText, this`confirmText
      ensures userText == user && passwordText == password && confirmText == confirm
    {
      userText, passwordText, confirmText := user, password, confirm;
    }

    /** The "register new account" link switches to Register mode. */
    method OnAccountClick()
      modifies this`buttonText
      ensures buttonText == REGISTER_TEXT
    {
      buttonText := REGISTER_TEXT;
    }

    /** The submit button: register or log in, depending on its text. */
    method OnSubmitClick(crypto: Crypto, answers: StoreAnswers)
      modifies this
      ensures var d := Decide(old(buttonText), old(userText), old(passwordText), old(confirmText), crypto, answers);
        && storeCalls == old(storeCalls) + d.calls
        && toasts == old(toasts) + ToastFor(d.verdict)
        && launched == old(launched) + (if d.verdict.LoggedIn? then [d.verdict.userId] else [])
        && crashed == (old(crashed) || d.verdict == CrashedOnNullHash)
        && (d.verdict == Registered ==>
              buttonText == LOGIN_TEXT && userText == "" && passwordText == "" && confirmText == "")
        && (d.verdict != Registered ==>
              buttonText == old(buttonText) && userText == old(userText)
              && passwordText == old(passwordText) && confirmText == old(confirmText))
    {
      if buttonText == REGISTER_TEXT {
        var password := passwordText;
        var confirmPassword := confirmText;
        if password == confirmPassword {
          var user := new User(0, Some(userText), Some(password), None, crypto);
          var users := GetUsers(answers.users);
          storeCalls := storeCalls + [ListUsers];
          var hasUser := FindUsername(users, user.user);
          if !hasUser {
            var isSuccessful := CreateUser(answers.insertRowId);
            storeCalls := storeCalls + [InsertUser(user.user, user.hash)];
            if isSuccessful {
              toasts := toasts + ["Success"];
              buttonText := LOGIN_TEXT;
              userText, passwordText, confirmText := "", "", "";
            } else {
              toasts := toasts + ["Failure, please try again."];
            }
          } else {
            toasts := toasts + ["Pick another Username."];
          }
        } else {
          toasts := toasts + ["Supplied passwords not equal."];
        }
      } else {
        var user := new User(0, Some(userText), Some(passwordText), None, crypto);
        var dbUser := GetDbUser(answers.lookup);
        storeCalls := storeCalls + [LookupUser(userText)];
        var isAuthenticated := user.Equals(if dbUser.Some? then UserRef(dbUser.value) else NullRef);
        match isAuthenticated
        case NullPointer =>
          crashed := true;
        case Value(same) =>
          if same && dbUser.Some? {
            launched := launched + [dbUser.value.id];
          } else {
            toasts := toasts + ["Incorrect, please try again."];
          }
      }
    }
  }
}
