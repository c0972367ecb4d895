/** The account pages of the Identity area: the login gate, e-mail
    confirmation and the forgot-password request. The password check, the
    confirmation token's validation and decoding, and the mail transport
    are parameters. */
module AccountPages {
  import opened Wrappers
  import opened Seqs
  import opened Text
  import opened Entities
  import opened Store
  import opened Logging

  // ---- login ----

  /** The login form. */
  datatype LoginInput = LoginInput(email: Option<string>, password: Option<string>, rememberMe: bool)

  /** `[Required, EmailAddress]` on the e-mail and `[Required]` on the
      password. */
  predicate LoginInputValid(input: LoginInput, isEmail: string -> bool) {
    Required(input.email) && isEmail(input.email.value) && Required(input.password)
  }

  /** What `PasswordSignInAsync` reports. */
  datatype SignInResult = SignInSucceeded | RequiresTwoFactor | LockedOut | SignInFailed

  const InvalidCredentials: string := "Invalid email or password. Please try again."
  const ConfirmFirst: string :=
    "Please confirm your email before logging in. Check your inbox for the confirmation link."
  const Deactivated: string := "Your account has been deactivated. Please contact an administrator for assistance."
  const PendingActivation: string := "Your account is pending activation. Please contact an administrator."
  const NotActive: string := "Your account is not active. Please contact an administrator."

  /** The message for a blocked status. */
  function StatusMessage(status: string): (m: string)
    ensures m in {Deactivated, PendingActivation, NotActive}
    ensures m == Deactivated <==> status == "Inactive"
    ensures m == PendingActivation <==> status == "Pending"
  {
    if status == "Inactive" then Deactivated
    else if status == "Pending" then PendingActivation
    else NotActive
  }

  datatype LoginOutcome =
    | FormInvalid
    | Refused(message: string)
    | SignedIn(index: nat)
    | TwoFactorRedirect
    | LockoutRedirect

  /** The checks of `OnPostAsync` in order: the form, the account's
      existence, a confirmed e-mail, status "Active", and only then the
      password. */
  function LoginGate(users: seq<User>, input: LoginInput, isEmail: string -> bool,
                     signIn: (User, string) -> SignInResult): (o: LoginOutcome)
    ensures o.SignedIn? ==> o.index < |users|
  {
    if !LoginInputValid(input, isEmail) then FormInvalid
    else match FindUserByEmail(users, input.email.value)
      case None => Refused(InvalidCredentials)
      case Some(i) =>
        if !users[i].emailConfirmed then Refused(ConfirmFirst)
        else if users[i].status != "Active" then Refused(StatusMessage(users[i].status))
        else match signIn(users[i], input.password.value)
          case SignInSucceeded => SignedIn(i)
          case RequiresTwoFactor => TwoFactorRedirect
          case LockedOut => LockoutRedirect
          case SignInFailed => Refused(InvalidCredentials)
  }

  /** A signed-in user exists under the submitted e-mail, is confirmed and
      active, and the password check accepted them. */
  lemma SignedInMeansAllChecksPassed(users: seq<User>, input: LoginInput, isEmail: string -> bool,
                                     signIn: (User, string) -> SignInResult)
    requires LoginGate(users, input, isEmail, signIn).SignedIn?
    ensures var i := LoginGate(users, input, isEmail, signIn).index;
      && LoginInputValid(input, isEmail)
      && HasEmail(users[i], input.email.value)
      && users[i].emailConfirmed && users[i].status == "Active"
      && signIn(users[i], input.password.value) == SignInSucceeded
  {
  }

  /** An unknown e-mail and a wrong password for an existing account give
      the same answer. */
  lemma UnknownUserLooksLikeWrongPassword(users: seq<User>, input: LoginInput, isEmail: string -> bool,
                                          signIn: (User, string) -> SignInResult, i: nat)
    requires LoginInputValid(input, isEmail) && UsersValid(users)
    requires i < |users| && HasEmail(users[i], input.email.value)
    requires users[i].emailConfirmed && users[i].status == "Active"
    requires signIn(users[i], input.password.value) == SignInFailed
    ensures LoginGate(users, input, isEmail, signIn) == Refused(InvalidCredentials)
    ensures LoginGate(RemoveAt(users, i), input, isEmail, signIn) == Refused(InvalidCredentials)
  {
    var j := FindUserByEmail(users, input.email.value).value;
    EmailHolderUnique(users, i, j, input.email.value);
    var rest := RemoveAt(users, i);
    forall k | 0 <= k < |rest| ensures !HasEmail(rest[k], input.email.value) {
      if k < i {
        assert rest[k] == users[k];
      } else {
        assert rest[k] == users[k + 1] && k + 1 != i;
      }
    }
  }

  /** An unconfirmed or inactive account is refused before any password
      attempt: the outcome does not depend on the password check. */
  lemma NoPasswordAttemptWhenBlocked(users: seq<User>, input: LoginInput, isEmail: string -> bool,
                                     s1: (User, string) -> SignInResult, s2: (User, string) -> SignInResult)
    requires LoginInputValid(input, isEmail)
    requires FindUserByEmail(users, input.email.value).Some?
    requires var u := users[FindUserByEmail(users, input.email.value).value];
      !u.emailConfirmed || u.status != "Active"
    ensures LoginGate(users, input, isEmail, s1) == LoginGate(users, input, isEmail, s2)
    ensures LoginGate(users, input, isEmail, s1).Refused?
  {
  }

  /** Confirmation is checked before status: an unconfirmed account gets
      the confirm-first message whatever its status. */
  lemma ConfirmationBeforeStatus(users: seq<User>, input: LoginInput, isEmail: string -> bool,
                                 signIn: (User, string) -> SignInResult, i: nat)
    requires LoginInputValid(input, isEmail) && UsersValid(users)
    requires i < |users| && HasEmail(users[i], input.email.value) && !users[i].emailConfirmed
    ensures LoginGate(users, input, isEmail, signIn) == Refused(ConfirmFirst)
  {
    var j := FindUserByEmail(users, input.email.value).value;
    EmailHolderUnique(users, i, j, input.email.value);
  }

  /** The three blocked-status messages differ from each other and from
      the credential and confirmation messages. */
  lemma RefusalMessagesDistinct()
    ensures |{InvalidCredentials, ConfirmFirst, Deactivated, PendingActivation, NotActive}| == 5
  {
    assert |InvalidCredentials| == 44 && |ConfirmFirst| == 88 && |Deactivated| == 82;
    assert |PendingActivation| == 68 && |NotActive| == 60;
  }

  function LoginDescription(email: string): string {
    "User " + email + " logged in successfully"
  }

  /** `OnPostAsync`. Every refusal and both redirects leave the store
      alone. A successful sign-in stamps `LastLogin` with the clock's time
      and then asks the logger for one Login entry (written when the
      request carries a principal that resolves to a user). */
  method OnPostLogin(db: Db, logger: ActivityLogger, input: LoginInput, isEmail: string -> bool,
                     signIn: (User, string) -> SignInResult, now: Time)
    returns (outcome: LoginOutcome)
    requires logger.db == db && db.Valid()
    modifies db`users, db`activityLogs, db`nextLogId
    ensures db.Valid()
    ensures outcome == LoginGate(old(db.users), input, isEmail, signIn)
    ensures !outcome.SignedIn? ==> db.users == old(db.users) && db.activityLogs == old(db.activityLogs)
    ensures outcome.SignedIn? ==>
      && db.users == old(db.users)[outcome.index := old(db.users)[outcome.index].(lastLogin := Some(now))]
      && db.activityLogs == old(db.activityLogs) + LogEntries(logger.Actor(), old(db.nextLogId), logger.utcNow,
           "Login", Some(LoginDescription(input.email.value)), None, logger.serialize)
  {
    outcome := LoginGate(db.users, input, isEmail, signIn);
    if outcome.SignedIn? {
      RecordLogin(db, logger, outcome.index, now, input.email.value);
    }
  }

  /** A successful sign-in: `LastLogin` stamped, then the Login entry. */
  method RecordLogin(db: Db, logger: ActivityLogger, i: nat, now: Time, email: string)
    requires logger.db == db && db.Valid() && i < |db.users|
    modifies db`users, db`activityLogs, db`nextLogId
    ensures db.Valid()
    ensures db.users == old(db.users)[i := old(db.users)[i].(lastLogin := Some(now))]
    ensures db.activityLogs == old(db.activityLogs) + LogEntries(logger.Actor(), old(db.nextLogId), logger.utcNow,
      "Login", Some(LoginDescription(email)), None, logger.serialize)
  {
    var u := db.users[i];
    if u.email.Some? {
      NoOtherHolder(db.users, i, u.email.value);
    }
    db.UpdateUser(i, u.(lastLogin := Some(now)));
    logger.LogAsync("Login", Some(LoginDescription(email)), None);
  }

  // ---- e-mail confirmation ----

  /** What happens to the link's code: `Base64UrlDecode` throws, or
      `ConfirmEmailAsync` accepts or rejects the decoded token. */
  datatype TokenCheck = TokenAccepted | TokenRejected | DecodeThrows

  const InvalidLink: string := "Invalid confirmation link. Please contact your administrator."
  const UserGone: string := "User not found. The account may have been deleted."
  const LinkExpired: string :=
    "The confirmation link is invalid or has expired. Please contact your administrator to resend the confirmation email."
  const ConfirmError: string :=
    "An error occurred while confirming your email. Please try again or contact your administrator."

  /** A confirmed account: e-mail confirmed and status "Active". */
  function Confirmed(u: User): (r: User)
    ensures r.emailConfirmed && r.status == "Active"
    ensures r.id == u.id && r.email == u.email && r.userName == u.userName
    ensures r.(emailConfirmed := u.emailConfirmed, status := u.status) == u
  {
    u.(emailConfirmed := true, status := "Active")
  }

  /** `OnGetAsync(userId, code)`. A missing parameter or an unknown user
      fail without a change. An already confirmed user succeeds without a
      change, so following the link again is harmless. Otherwise an
      accepted token confirms the e-mail and activates the account, and a
      rejected or undecodable code fails without a change. */
  method OnGetConfirmEmail(db: Db, userId: Option<string>, code: Option<string>, check: TokenCheck)
    returns (isSuccess: bool, errorMessage: Option<string>)
    requires db.Valid()
    modifies db`users
    ensures db.Valid()
    ensures (userId.None? || code.None?) ==> !isSuccess && errorMessage == Some(InvalidLink)
    ensures userId.Some? && code.Some? && FindUserById(old(db.users), userId.value).None? ==>
      !isSuccess && errorMessage == Some(UserGone)
    ensures userId.Some? && code.Some? && FindUserById(old(db.users), userId.value).Some? ==>
      var i := FindUserById(old(db.users), userId.value).value;
      var u := old(db.users)[i];
      && (u.emailConfirmed ==> isSuccess && errorMessage.None? && db.users == old(db.users))
      && (!u.emailConfirmed && check == TokenAccepted ==>
            isSuccess && errorMessage.None? && db.users == old(db.users)[i := Confirmed(u)])
      && (!u.emailConfirmed && check == TokenRejected ==> !isSuccess && errorMessage == Some(LinkExpired))
      && (!u.emailConfirmed && check == DecodeThrows ==> !isSuccess && errorMessage == Some(ConfirmError))
    ensures db.users == old(db.users) || (isSuccess && check == TokenAccepted)
  {
    if userId.None? || code.None? {
      return false, Some(InvalidLink);
    }
    var found := FindUserById(db.users, userId.value);
    if found.None? {
      return false, Some(UserGone);
    }
    var i := found.value;
    var u := db.users[i];
    if u.emailConfirmed {
      return true, None;
    }
    match check
    case TokenAccepted =>
      if u.email.Some? {
        NoOtherHolder(db.users, i, u.email.value);
      }
      db.UpdateUser(i, Confirmed(u));
      return true, None;
    case TokenRejected =>
      return false, Some(LinkExpired);
    case DecodeThrows =>
      return false, Some(ConfirmError);
  }

  /** Confirming a confirmed account changes nothing further. */
  lemma ConfirmIdempotent(u: User)
    ensures Confirmed(Confirmed(u)) == Confirmed(u)
    ensures u.emailConfirmed && u.status == "Active" ==> Confirmed(u) == u
  {
  }

  // ---- forgot password ----

  const ResetSubject: string := "Reset Your YardOps Password"

  /** What the handler decides for a request: redisplay the form, redirect
      only, or mail the submitted address and then redirect. */
  datatype ForgotAction = Redisplay | RedirectOnly | MailThenRedirect(to: string)

  /** The decision of `OnPostAsync`: an invalid form is redisplayed; an
      unknown or unconfirmed account gets the redirect without mail. */
  function ForgotDecision(users: seq<User>, email: Option<string>, isEmail: string -> bool): (a: ForgotAction)
    ensures a == Redisplay <==> !(Required(email) && isEmail(email.value))
    ensures a.MailThenRedirect? ==> a.to == email.value
    ensures a.MailThenRedirect? <==>
      Required(email) && isEmail(email.value)
      && FindUserByEmail(users, email.value).Some? && users[FindUserByEmail(users, email.value).value].emailConfirmed
  {
    if !(Required(email) && isEmail(email.value)) then Redisplay
    else match FindUserByEmail(users, email.value)
      case None => RedirectOnly
      case Some(i) => if !users[i].emailConfirmed then RedirectOnly else MailThenRedirect(email.value)
  }

  /** What the visitor sees. */
  datatype ForgotOutcome = FormRedisplayed | RedirectedToConfirmation | SendThrew

  /** The page result for a decision, given whether the sender delivered. */
  function Visible(a: ForgotAction, delivered: bool): ForgotOutcome {
    match a
    case Redisplay => FormRedisplayed
    case RedirectOnly => RedirectedToConfirmation
    case MailThenRedirect(_) => if delivered then RedirectedToConfirmation else SendThrew
  }

  /** The page does not reveal whether an account exists: for a valid form
      the visitor sees the same redirect in every store, as long as the
      sender works. */
  lemma ForgotDoesNotDisclose(users1: seq<User>, users2: seq<User>, email: Option<string>, isEmail: string -> bool)
    requires Required(email) && isEmail(email.value)
    ensures Visible(ForgotDecision(users1, email, isEmail), true) == RedirectedToConfirmation
    ensures Visible(ForgotDecision(users1, email, isEmail), true) == Visible(ForgotDecision(users2, email, isEmail), true)
  {
  }

  /** `OnPostAsync`: at most one reset mail, only to a confirmed account and
      only to the submitted address. The sender's failure propagates. */
  method OnPostForgotPassword(db: Db, mail: EmailSender, email: Option<string>, isEmail: string -> bool)
    returns (outcome: ForgotOutcome)
    modifies mail`sent
    ensures outcome == Visible(ForgotDecision(db.users, email, isEmail), mail.available)
    ensures ForgotDecision(db.users, email, isEmail).MailThenRedirect? && mail.available ==>
      mail.sent == old(mail.sent) + [Email(email.value, ResetSubject)]
    ensures !(ForgotDecision(db.users, email, isEmail).MailThenRedirect? && mail.available) ==>
      mail.sent == old(mail.sent)
  {
    var action := ForgotDecision(db.users, email, isEmail);
    match action
    case Redisplay =>
      return FormRedisplayed;
    case RedirectOnly =>
      return RedirectedToConfirmation;
    case MailThenRedirect(to) =>
      var delivered := mail.SendEmailAsync(to, ResetSubject);
      if !delivered {
        return SendThrew;
      }
      return RedirectedToConfirmation;
  }
}
