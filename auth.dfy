/** The password-reset flow and the two request gates of the account
    handlers.

    A user record keeps an optional reset token and an optional expiry time
    (milliseconds since the epoch, as `Date.now()` counts).  The random token,
    the clock and the request host are inputs; mail delivery, password hashing
    and the login session are not part of this model. */
module Auth {
  import opened Common

  /** How long an issued token stays usable: one hour in milliseconds. */
  const ResetWindow: int := 3600000

  datatype UserRecord = UserRecord(
    email: string,
    password: Option<string>,
    resetToken: Option<string>,
    resetExpires: Option<int>)

  /** What a middleware gate does with a request. */
  datatype Gate = Next | Redirect(location: string)

  /** `isLoggedIn`: authenticated requests go on, the rest go to the login
      page. */
  function IsLoggedIn(authenticated: bool): (r: Gate)
    ensures r == Next <==> authenticated
    ensures r != Next ==> r == Redirect("/login")
  {
    if authenticated then Next else Redirect("/login")
  }

  /** `confirmedPasswords`: the request goes on exactly when the two fields
      are strictly equal (two missing fields are equal too); otherwise it is
      sent back to the form. */
  function ConfirmedPasswords(password: Option<string>, confirm: Option<string>): (r: Gate)
    ensures r == Next <==> password == confirm
    ensures r != Next ==> r == Redirect("back")
  {
    if password == confirm then Next else Redirect("back")
  }

  /** The stored token is `token` and has not expired at `now`; the expiry
      comparison is strict, as `$gt` is. */
  predicate TokenValid(u: UserRecord, token: string, now: int) {
    u.resetToken == Some(token) && u.resetExpires.Some? && u.resetExpires.value > now
  }

  /** `findOne({ email })`. */
  function FindByEmail(users: seq<UserRecord>, email: string): (r: Option<nat>)
    ensures r.Some? ==> r.value < |users| && users[r.value].email == email
    ensures r.Some? ==> forall j :: 0 <= j < r.value ==> users[j].email != email
    ensures r.None? <==> forall j :: 0 <= j < |users| ==> users[j].email != email
  {
    FirstIndex(users, (u: UserRecord) => u.email == email)
  }

  /** `findOne({ resetPasswordToken: token, resetPasswordExpires: { $gt: now } })`. */
  function FindByToken(users: seq<UserRecord>, token: string, now: int): (r: Option<nat>)
    ensures r.Some? ==> r.value < |users| && TokenValid(users[r.value], token, now)
    ensures r.Some? ==> forall j :: 0 <= j < r.value ==> !TokenValid(users[j], token, now)
    ensures r.None? <==> forall j :: 0 <= j < |users| ==> !TokenValid(users[j], token, now)
  {
    FirstIndex(users, (u: UserRecord) => TokenValid(u, token, now))
  }

  /** The record after a token is issued at `now`. */
  function Issue(u: UserRecord, token: string, now: int): (r: UserRecord)
    ensures r.resetExpires == Some(now + ResetWindow)
    ensures r.email == u.email && r.password == u.password
  {
    u.(resetToken := Some(token), resetExpires := Some(now + ResetWindow))
  }

  /** An issued token is usable strictly before one hour has passed, and not
      from that instant on. */
  lemma IssuedTokenWindow(u: UserRecord, token: string, now: int, t: int)
    ensures TokenValid(Issue(u, token, now), token, t) <==> t < now + ResetWindow
  {
  }

  /** Issuing a new token retires every other token of that user. */
  lemma ReissueRetires(u: UserRecord, first: string, second: string, now: int, t: int)
    requires first != second
    ensures !TokenValid(Issue(u, second, now), first, t)
  {
  }

  /** The record after `setPassword` and the clearing of both reset fields. */
  function Reset(u: UserRecord, password: string): (r: UserRecord)
    ensures r.email == u.email && r.password == Some(password)
    ensures r.resetToken.None? && r.resetExpires.None?
  {
    u.(password := Some(password), resetToken := None, resetExpires := None)
  }

  /** Once the fields are cleared no token validates for that user, at any
      time. */
  lemma ResetRetiresEveryToken(u: UserRecord, password: string, token: string, t: int)
    ensures !TokenValid(Reset(u, password), token, t)
  {
  }

  // ---------------------------------------------------------------------
  // forgot
  // ---------------------------------------------------------------------

  /** One run of `forgot`: the user collection afterwards, where the response
      redirected, the reset link that was mailed (if any) and whether the
      handler then threw. */
  datatype ForgotRun = ForgotRun(
    users: seq<UserRecord>,
    redirect: string,
    resetUrl: Option<string>,
    threw: bool)

  function ResetUrl(host: string, token: string): string {
    "http://" + host + "/account/reset/" + token
  }

  /** `forgot` as written: for an unknown email the handler redirects to the
      login page and then goes on to set a field of `null`, which throws a
      TypeError after the response has been sent. */
  function RunForgotAsWritten(users: seq<UserRecord>, email: string, token: string, now: int, host: string): (r: ForgotRun)
    ensures r.redirect == "/login"
    ensures r.threw <==> FindByEmail(users, email).None?
    ensures r.resetUrl.Some? <==> FindByEmail(users, email).Some?
    ensures r.threw ==> r.users == users
  {
    match FindByEmail(users, email)
    case None => ForgotRun(users, "/login", None, true)
    case Some(i) => ForgotRun(users[i := Issue(users[i], token, now)], "/login", Some(ResetUrl(host, token)), false)
  }

  /** `forgot` with the evident intent: an unknown email stops after the
      redirect. */
  function RunForgot(users: seq<UserRecord>, email: string, token: string, now: int, host: string): (r: ForgotRun)
    ensures r.redirect == "/login" && !r.threw
    ensures |r.users| == |users|
  {
    match FindByEmail(users, email)
    case None => ForgotRun(users, "/login", None, false)
    case Some(i) => ForgotRun(users[i := Issue(users[i], token, now)], "/login", Some(ResetUrl(host, token)), false)
  }

  /** The as-written handler throws on every unknown email, although it has
      already redirected. */
  lemma ForgotAsWrittenThrows(users: seq<UserRecord>, email: string, token: string, now: int, host: string)
    requires forall j :: 0 <= j < |users| ==> users[j].email != email
    ensures RunForgotAsWritten(users, email, token, now, host).threw
    ensures RunForgotAsWritten(users, email, token, now, host).redirect == "/login"
    ensures RunForgotAsWritten(users, email, token, now, host).users == users
    ensures RunForgotAsWritten(users, email, token, now, host).resetUrl.None?
  {
  }

  /** For instance with no users at all. */
  lemma ForgotAsWrittenThrowsOnEmpty()
    ensures RunForgotAsWritten([], "nobody@example.com", "t", 0, "localhost").threw
  {
  }

  /** The corrected handler leaves the users alone and sends no link for an
      unknown email, and otherwise behaves as the written one. */
  lemma ForgotUnknownEmail(users: seq<UserRecord>, email: string, token: string, now: int, host: string)
    ensures var r := RunForgot(users, email, token, now, host);
      FindByEmail(users, email).None? <==> (r.resetUrl.None? && r.users == users)
    ensures FindByEmail(users, email).Some? ==>
      RunForgot(users, email, token, now, host) == RunForgotAsWritten(users, email, token, now, host)
  {
    var r := RunForgot(users, email, token, now, host);
    if FindByEmail(users, email).Some? {
      var i := FindByEmail(users, email).value;
      assert r.users[i].resetToken == Some(token);
    }
  }

  /** For a registered email the first matching user, and no other, gets the
      token, valid for one hour; the link names that token. */
  lemma ForgotIssues(users: seq<UserRecord>, email: string, token: string, now: int, host: string, i: nat)
    requires FindByEmail(users, email) == Some(i)
    ensures var r := RunForgot(users, email, token, now, host);
      && r.resetUrl == Some(ResetUrl(host, token))
      && r.users[i] == Issue(users[i], token, now)
      && (forall j :: 0 <= j < |users| && j != i ==> r.users[j] == users[j])
      && (forall t :: TokenValid(r.users[i], token, t) <==> t < now + ResetWindow)
  {
  }

  // ---------------------------------------------------------------------
  // reset and update
  // ---------------------------------------------------------------------

  /** What `reset` answers. */
  datatype ResetPage = ShowResetForm | InvalidToken

  /** `reset`: the form is shown exactly when some user holds the token and it
      has not expired. */
  function ResetPageFor(users: seq<UserRecord>, token: string, now: int): (r: ResetPage)
    ensures r == ShowResetForm <==> exists j :: 0 <= j < |users| && TokenValid(users[j], token, now)
  {
    if FindByToken(users, token, now).Some? then ShowResetForm else InvalidToken
  }

  /** What `update` answers. */
  datatype UpdateOutcome = Updated(user: nat) | UpdateRefused

  /** The user collection after `update`: the first user holding the valid
      token gets the password and loses both reset fields. */
  function UpdateUsers(users: seq<UserRecord>, token: string, password: string, now: int): (r: seq<UserRecord>)
    ensures |r| == |users|
    ensures FindByToken(users, token, now).None? ==> r == users
  {
    match FindByToken(users, token, now)
    case None => users
    case Some(i) => users[i := Reset(users[i], password)]
  }

  /** A successful update changes exactly the user that held the token, who
      can no longer use it or any other token. */
  lemma UpdateEffect(users: seq<UserRecord>, token: string, password: string, now: int, i: nat)
    requires FindByToken(users, token, now) == Some(i)
    ensures var r := UpdateUsers(users, token, password, now);
      && r[i].password == Some(password) && r[i].email == users[i].email
      && (forall t, later :: !TokenValid(r[i], t, later))
      && (forall j :: 0 <= j < |users| && j != i ==> r[j] == users[j])
  {
    var r := UpdateUsers(users, token, password, now);
    forall t, later ensures !TokenValid(r[i], t, later) {
      ResetRetiresEveryToken(users[i], password, t, later);
    }
  }

  /** `reset` shows the form exactly when `update` with the same token at the
      same time would succeed. */
  lemma ResetAgreesWithUpdate(users: seq<UserRecord>, token: string, now: int)
    ensures ResetPageFor(users, token, now) == ShowResetForm <==> FindByToken(users, token, now).Some?
  {
    if ResetPageFor(users, token, now) == ShowResetForm {
      var j :| 0 <= j < |users| && TokenValid(users[j], token, now);
    }
  }

  /** The token mailed by `forgot` opens the reset form until the hour is
      over, and from then on it no longer validates for the user it was
      mailed to (another user could still hold the same token). */
  lemma ForgotThenReset(users: seq<UserRecord>, email: string, token: string, now: int, host: string, t: int)
    requires FindByEmail(users, email).Some?
    ensures var after := RunForgot(users, email, token, now, host).users;
      t < now + ResetWindow ==> ResetPageFor(after, token, t) == ShowResetForm
    ensures var i := FindByEmail(users, email).value;
      var after := RunForgot(users, email, token, now, host).users;
      i < |after| && (t >= now + ResetWindow ==> !TokenValid(after[i], token, t))
  {
    var i := FindByEmail(users, email).value;
    var after := RunForgot(users, email, token, now, host).users;
    ForgotIssues(users, email, token, now, host, i);
    if t < now + ResetWindow {
      assert TokenValid(after[i], token, t);
    }
  }

  /** The stored accounts. */
  class Accounts {
    var users: seq<UserRecord>

    constructor (users: seq<UserRecord>)
      ensures this.users == users
    {
      this.users := users;
    }

    /** `forgot` (with the return after the redirect): finds the user, stores
        a fresh token and its expiry, and returns the link to mail. */
    method Forgot(email: string, token: string, now: int, host: string) returns (resetUrl: Option<string>)
      modifies this
      ensures var r := RunForgot(old(users), email, token, now, host);
        users == r.users && resetUrl == r.resetUrl
    {
      var found := FindByEmail(users, email);
      if found.None? {
        return None;
      }
      var i := found.value;
      var user := users[i];
      user := user.(resetToken := Some(token));
      user := user.(resetExpires := Some(now + ResetWindow));
      users := users[i := user];
      resetUrl := Some(ResetUrl(host, token));
    }

    /** `update`: refuses an unknown or expired token without touching any
        user; otherwise sets the password and clears both reset fields. */
    method Update(token: string, password: string, now: int) returns (outcome: UpdateOutcome)
      modifies this
      ensures users == UpdateUsers(old(users), token, password, now)
      ensures outcome == UpdateRefused <==> FindByToken(old(users), token, now).None?
      ensures outcome.Updated? ==> FindByToken(old(users), token, now) == Some(outcome.user)
    {
      var found := FindByToken(users, token, now);
      if found.None? {
        return UpdateRefused;
      }
      var i := found.value;
      var user := users[i];
      user := user.(password := Some(password));
      user := user.(resetToken := None);
      user := user.(resetExpires := None);
      users := users[i := user];
      outcome := Updated(i);
    }
  }
}
