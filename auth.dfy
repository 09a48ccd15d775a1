/** The authentication endpoint (api_auth.php): transitions on the `users`
    table and on the session. Hashing, verification and token generation
    are foreign: `verify(password, hash)` is `password_verify`, `hash` is
    `password_hash`, and `token` is the string `bin2hex(random_bytes(32))`
    produced. */
module Auth {
  import opened Common
  import opened Php
  import opened Schema

  const FailedLoginPrefix: string := "محاولة تسجيل دخول فاشلة للمستخدم: "

  /** `strtotime('+1 hour')`, in seconds after `NOW()`. */
  const ResetLifetime: int := 3600

  /** The fields of `$_SESSION` these handlers use. */
  class Session {
    var userId: Option<int>
    var username: Option<string>
    var email: Option<string>

    /** `isLoggedIn()`: both the id and the name are set. */
    predicate LoggedIn()
      reads this
    {
      userId.Some? && username.Some?
    }

    /** A fresh session. */
    constructor ()
      ensures userId.None? && username.None? && email.None?
      ensures !LoggedIn()
    {
      userId, username, email := None, None, None;
    }
  }

  /** The index of the first user satisfying `p`: the row `fetch()` returns. */
  function FirstWhere(users: seq<User>, p: User -> bool): (r: Option<nat>)
    ensures r.Some? ==> r.value < |users| && p(users[r.value])
    ensures r.Some? ==> forall j :: 0 <= j < r.value ==> !p(users[j])
    ensures r.None? <==> forall j :: 0 <= j < |users| ==> !p(users[j])
  {
    if users == [] then None
    else if p(users[0]) then Some(0)
    else
      var r := FirstWhere(users[1..], p);
      assert forall j :: 1 <= j < |users| ==> users[1..][j - 1] == users[j];
      if r.Some? then Some(r.value + 1) else None
  }

  /** `(username = ? OR email = ?) AND is_active = 1`. */
  predicate LoginMatch(u: User, name: string) {
    u.isActive && (u.username == name || u.email == name)
  }

  /** `email = ? AND is_active = 1`. */
  predicate EmailMatch(u: User, email: string) {
    u.isActive && u.email == email
  }

  /** `id = ?`. */
  predicate HasId(u: User, id: int) {
    u.id == id
  }

  /** `reset_token = ? AND reset_token_expiry > NOW()`; a NULL column never matches. */
  predicate TokenMatch(u: User, token: string, now: int) {
    u.resetToken == Some(token) && u.resetTokenExpiry.Some? && u.resetTokenExpiry.value > now
  }

  /** An `UPDATE users SET ... WHERE id = ?` this endpoint issues. */
  datatype UserChange =
    | SignIn(now: int, rememberToken: Option<string>)
    | IssueReset(token: string, expiry: int)
    | CompleteReset(hash: string)
    | SetHash(hash: string)

  /** The columns each change sets. */
  function Apply(u: User, c: UserChange): (v: User)
    ensures v.id == u.id && v.username == u.username && v.email == u.email && v.isActive == u.isActive
    ensures c.SignIn? ==> && v.lastLogin == Some(c.now) && v.passwordHash == u.passwordHash
                          && v.resetToken == u.resetToken && v.resetTokenExpiry == u.resetTokenExpiry
    ensures c.SignIn? && c.rememberToken.None? ==> v.rememberToken == u.rememberToken
    ensures c.SignIn? && c.rememberToken.Some? ==> v.rememberToken == c.rememberToken
    ensures !c.SignIn? ==> v.lastLogin == u.lastLogin && v.rememberToken == u.rememberToken
    ensures c.IssueReset? ==> v.resetToken == Some(c.token) && v.resetTokenExpiry == Some(c.expiry) && v.passwordHash == u.passwordHash
    ensures c.CompleteReset? ==> v.passwordHash == c.hash && v.resetToken.None? && v.resetTokenExpiry.None?
    ensures c.SetHash? ==> v.passwordHash == c.hash && v.resetToken == u.resetToken && v.resetTokenExpiry == u.resetTokenExpiry
  {
    match c
    case SignIn(now, token) =>
      var v := u.(lastLogin := Some(now));
      if token.Some? then v.(rememberToken := token) else v
    case IssueReset(token, expiry) => u.(resetToken := Some(token), resetTokenExpiry := Some(expiry))
    case CompleteReset(hash) => u.(passwordHash := hash, resetToken := None, resetTokenExpiry := None)
    case SetHash(hash) => u.(passwordHash := hash)
  }

  /** `UPDATE users SET ... WHERE id = ?`. */
  function Touch(users: seq<User>, id: int, c: UserChange): (r: seq<User>)
    ensures |r| == |users|
    ensures forall k :: 0 <= k < |users| ==> r[k].id == users[k].id
  {
    seq(|users|, k requires 0 <= k < |users| => if users[k].id == id then Apply(users[k], c) else users[k])
  }

  /** With unique ids, the update changes the one row carrying the id and no other. */
  lemma TouchOne(users: seq<User>, k: nat, c: UserChange)
    requires UserIdsUnique(users) && k < |users|
    ensures var after := Touch(users, users[k].id, c);
            && after[k] == Apply(users[k], c)
            && forall j :: 0 <= j < |users| && j != k ==> after[j] == users[j]
  {
    var after := Touch(users, users[k].id, c);
    forall j | 0 <= j < |users| && j != k
      ensures after[j] == users[j]
    {
      if j < k {
        assert users[j].id != users[k].id;
      } else {
        assert users[k].id != users[j].id;
      }
    }
  }

  /** What a successful login returns besides its message. */
  datatype LoginData = LoginData(redirect: string, id: int, username: string, email: string)

  function AgentOf(ctx: Context): Option<string> {
    Some(Coalesce(ctx.userAgent, ""))
  }

  /** `login`: `username` has been through `sanitize()`, `remember` is
      `$_POST['remember']`, `token` is the would-be remember token. */
  method Login(db: Database, session: Session, ctx: Context, username: string, password: string,
               remember: Option<string>, token: string, verify: (string, string) -> bool)
    returns (r: Response<LoginData>)
    requires db.Valid()
    modifies db`users, db`activityLogs, session
    ensures db.Valid()
    ensures !ctx.isPost || Empty(username) || Empty(password) ==>
      && r == Failure(if !ctx.isPost then WrongMethod else MissingFields)
      && db.users == old(db.users) && db.activityLogs == old(db.activityLogs)
      && session.userId == old(session.userId) && session.username == old(session.username)
      && session.email == old(session.email)
    ensures ctx.isPost && !Empty(username) && !Empty(password) ==>
      var i := FirstWhere(old(db.users), u => LoginMatch(u, username));
      if i.Some? && verify(password, old(db.users)[i.value].passwordHash) then
        var u := old(db.users)[i.value];
        && r == Success(LoginData("admin.html", u.id, u.username, u.email))
        && session.userId == Some(u.id) && session.username == Some(u.username) && session.email == Some(u.email)
        && db.users == Touch(old(db.users), u.id, SignIn(ctx.now, if remember == Some("true") then Some(token) else None))
        && db.activityLogs == old(db.activityLogs) + [LogEntry(Some(u.id), "login", "تسجيل دخول ناجح", ctx.ip, AgentOf(ctx))]
      else
        && r == Failure(WrongCredentials)
        && session.userId == old(session.userId) && session.username == old(session.username)
        && session.email == old(session.email)
        && db.users == old(db.users)
        && db.activityLogs == old(db.activityLogs) + [LogEntry(None, "failed_login", FailedLoginPrefix + username, ctx.ip, AgentOf(ctx))]
  {
    if !ctx.isPost {
      return Failure(WrongMethod);
    }
    var rememberMe := remember == Some("true");
    if Empty(username) || Empty(password) {
      return Failure(MissingFields);
    }
    var i := FirstWhere(db.users, u => LoginMatch(u, username));
    if i.Some? && verify(password, db.users[i.value].passwordHash) {
      var u := db.users[i.value];
      db.users := Touch(db.users, u.id, SignIn(ctx.now, if rememberMe then Some(token) else None));
      session.userId, session.username, session.email := Some(u.id), Some(u.username), Some(u.email);
      db.activityLogs := db.activityLogs + [LogEntry(Some(u.id), "login", "تسجيل دخول ناجح", ctx.ip, AgentOf(ctx))];
      r := Success(LoginData("admin.html", u.id, u.username, u.email));
    } else {
      db.activityLogs := db.activityLogs + [LogEntry(None, "failed_login", FailedLoginPrefix + username, ctx.ip, AgentOf(ctx))];
      r := Failure(WrongCredentials);
    }
  }

  /** A successful login stamps `last_login` on the user it found and on no
      other row, and stores a remember token exactly when one was asked for. */
  lemma SignInEffect(users: seq<User>, k: nat, now: int, remember: Option<string>, token: string)
    requires UserIdsUnique(users) && k < |users|
    ensures var after := Touch(users, users[k].id, SignIn(now, if remember == Some("true") then Some(token) else None));
            && after[k].lastLogin == Some(now)
            && after[k].passwordHash == users[k].passwordHash
            && (remember == Some("true") ==> after[k].rememberToken == Some(token))
            && (remember != Some("true") ==> after[k].rememberToken == users[k].rememberToken)
            && forall j :: 0 <= j < |users| && j != k ==> after[j] == users[j]
  {
    TouchOne(users, k, SignIn(now, if remember == Some("true") then Some(token) else None));
  }

  /** Login accepts exactly the credentials of the first active user whose
      name or email is the input. In particular an inactive user never logs in. */
  lemma LoginCandidate(users: seq<User>, name: string, k: nat)
    requires k < |users|
    requires FirstWhere(users, u => LoginMatch(u, name)) == Some(k)
    ensures users[k].isActive && (users[k].username == name || users[k].email == name)
    ensures forall j :: 0 <= j < k ==> !users[j].isActive || (users[j].username != name && users[j].email != name)
  {
    var p := (u: User) => LoginMatch(u, name);
    assert p(users[k]);
    forall j | 0 <= j < k
      ensures !users[j].isActive || (users[j].username != name && users[j].email != name)
    {
      assert !p(users[j]);
    }
  }

  /** `logout`: logs the signed-in user out and empties the session. */
  method Logout(db: Database, session: Session, ctx: Context) returns (r: Response<string>)
    modifies db`activityLogs, session
    ensures r == Success("index.html")
    ensures !session.LoggedIn() && session.userId.None? && session.username.None? && session.email.None?
    ensures db.activityLogs == old(db.activityLogs) +
      (if old(session.LoggedIn()) then [LogEntry(old(session.userId), "logout", "تسجيل خروج", ctx.ip, AgentOf(ctx))] else [])
  {
    if session.LoggedIn() {
      db.activityLogs := db.activityLogs + [LogEntry(session.userId, "logout", "تسجيل خروج", ctx.ip, AgentOf(ctx))];
    }
    session.userId, session.username, session.email := None, None, None;
    r := Success("index.html");
  }

  /** `forgot_password`: `email` has been through `sanitize()`, `isEmail`
      is `FILTER_VALIDATE_EMAIL`, `sent` is what `sendPasswordResetEmail`
      returned. */
  method ForgotPassword(db: Database, ctx: Context, email: string, isEmail: string -> bool, token: string, sent: bool)
    returns (r: Response<()>)
    requires db.Valid()
    modifies db`users, db`activityLogs
    ensures db.Valid()
    ensures !ctx.isPost || Empty(email) || !isEmail(email) ==>
      && r == Failure(if !ctx.isPost then WrongMethod else InvalidEmail)
      && db.users == old(db.users) && db.activityLogs == old(db.activityLogs)
    ensures ctx.isPost && !Empty(email) && isEmail(email) ==>
      var i := FirstWhere(old(db.users), u => EmailMatch(u, email));
      if i.None? then
        r == Failure(EmailNotRegistered) && db.users == old(db.users) && db.activityLogs == old(db.activityLogs)
      else
        var u := old(db.users)[i.value];
        && db.users == Touch(old(db.users), u.id, IssueReset(token, ctx.now + ResetLifetime))
        && (sent ==> (r == Success(()) && db.activityLogs == old(db.activityLogs) +
                        [LogEntry(Some(u.id), "password_reset_request", "طلب إعادة تعيين كلمة المرور", ctx.ip, None)]))
        && (!sent ==> r == Failure(EmailFailed) && db.activityLogs == old(db.activityLogs))
  {
    if !ctx.isPost {
      return Failure(WrongMethod);
    }
    if Empty(email) || !isEmail(email) {
      return Failure(InvalidEmail);
    }
    var i := FirstWhere(db.users, u => EmailMatch(u, email));
    if i.None? {
      return Failure(EmailNotRegistered);
    }
    var u := db.users[i.value];
    db.users := Touch(db.users, u.id, IssueReset(token, ctx.now + ResetLifetime));
    if sent {
      db.activityLogs := db.activityLogs + [LogEntry(Some(u.id), "password_reset_request", "طلب إعادة تعيين كلمة المرور", ctx.ip, None)];
      r := Success(());
    } else {
      r := Failure(EmailFailed);
    }
  }

  /** A token issued now stays valid for exactly the next hour: it matches
      at every time before `now + 3600` and at none from then on. */
  lemma IssuedTokenLifetime(users: seq<User>, k: nat, token: string, now: int, later: int)
    requires UserIdsUnique(users) && k < |users|
    ensures var after := Touch(users, users[k].id, IssueReset(token, now + ResetLifetime));
            TokenMatch(after[k], token, later) <==> later < now + ResetLifetime
  {
    TouchOne(users, k, IssueReset(token, now + ResetLifetime));
  }

  /** The checks `reset_password` makes before it looks the token up. */
  function ResetGuard(ctx: Context, token: string, newPassword: string, confirm: string): (g: Option<Reason>)
    ensures g.None? <==> ctx.isPost && !Empty(token) && !Empty(newPassword) && !Empty(confirm)
                         && newPassword == confirm && Utf8Length(newPassword) >= 6
    ensures !ctx.isPost ==> g == Some(WrongMethod)
    ensures ctx.isPost && (Empty(token) || Empty(newPassword) || Empty(confirm)) ==> g == Some(MissingFields)
    ensures ctx.isPost && !Empty(token) && !Empty(newPassword) && !Empty(confirm) && newPassword != confirm ==>
              g == Some(PasswordMismatch)
    ensures (ctx.isPost && !Empty(token) && !Empty(newPassword) && !Empty(confirm) && newPassword == confirm
             && Utf8Length(newPassword) < 6) ==> g == Some(PasswordTooShort)
  {
    if !ctx.isPost then Some(WrongMethod)
    else if Empty(token) || Empty(newPassword) || Empty(confirm) then Some(MissingFields)
    else if newPassword != confirm then Some(PasswordMismatch)
    else if Utf8Length(newPassword) < 6 then Some(PasswordTooShort)
    else None
  }

  /** `reset_password`: `token` has been through `sanitize()`; the length
      check is `strlen`, a count of bytes. */
  method ResetPassword(db: Database, ctx: Context, token: string, newPassword: string, confirm: string, hash: string -> string)
    returns (r: Response<string>)
    requires db.Valid()
    modifies db`users, db`activityLogs
    ensures db.Valid()
    ensures ResetGuard(ctx, token, newPassword, confirm).Some? ==>
      && r == Failure(ResetGuard(ctx, token, newPassword, confirm).value)
      && db.users == old(db.users) && db.activityLogs == old(db.activityLogs)
    ensures ResetGuard(ctx, token, newPassword, confirm).None? ==>
      var i := FirstWhere(old(db.users), u => TokenMatch(u, token, ctx.now));
      if i.None? then
        r == Failure(InvalidToken) && db.users == old(db.users) && db.activityLogs == old(db.activityLogs)
      else
        var u := old(db.users)[i.value];
        && r == Success("login.html")
        && db.users == Touch(old(db.users), u.id, CompleteReset(hash(newPassword)))
        && db.activityLogs == old(db.activityLogs) + [LogEntry(Some(u.id), "password_reset", "تم إعادة تعيين كلمة المرور", ctx.ip, None)]
  {
    var g := ResetGuard(ctx, token, newPassword, confirm);
    if g.Some? {
      return Failure(g.value);
    }
    var i := FirstWhere(db.users, u => TokenMatch(u, token, ctx.now));
    if i.None? {
      return Failure(InvalidToken);
    }
    var u := db.users[i.value];
    db.users := Touch(db.users, u.id, CompleteReset(hash(newPassword)));
    db.activityLogs := db.activityLogs + [LogEntry(Some(u.id), "password_reset", "تم إعادة تعيين كلمة المرور", ctx.ip, None)];
    r := Success("login.html");
  }

  /** A reset token works once: after it has been used, no token at any
      time finds the user it reset, and the other rows are untouched. */
  lemma ResetTokenSingleUse(users: seq<User>, k: nat, h: string, token: string, now: int)
    requires UserIdsUnique(users) && k < |users|
    ensures var after := Touch(users, users[k].id, CompleteReset(h));
            && after[k].passwordHash == h
            && (forall j :: 0 <= j < |after| && after[j].id == users[k].id ==> !TokenMatch(after[j], token, now))
            && forall j :: 0 <= j < |users| && j != k ==> after[j] == users[j]
  {
    var after := Touch(users, users[k].id, CompleteReset(h));
    TouchOne(users, k, CompleteReset(h));
    forall j | 0 <= j < |after| && after[j].id == users[k].id
      ensures !TokenMatch(after[j], token, now)
    {
      assert after[j] == Apply(users[j], CompleteReset(h));
    }
  }

  /** The checks `change_password` makes before it reads the stored hash. */
  function ChangeGuard(isPost: bool, loggedIn: bool, current: string, newPassword: string, confirm: string): (g: Option<Reason>)
    ensures g.None? <==> isPost && loggedIn && !Empty(current) && !Empty(newPassword) && !Empty(confirm)
                         && newPassword == confirm && Utf8Length(newPassword) >= 6
    ensures !isPost ==> g == Some(WrongMethod)
    ensures isPost && !loggedIn ==> g == Some(Forbidden)
    ensures isPost && loggedIn && (Empty(current) || Empty(newPassword) || Empty(confirm)) ==> g == Some(MissingFields)
    ensures isPost && loggedIn && !Empty(current) && !Empty(newPassword) && !Empty(confirm) && newPassword != confirm ==>
              g == Some(PasswordMismatch)
    ensures (isPost && loggedIn && !Empty(current) && !Empty(newPassword) && !Empty(confirm) && newPassword == confirm
             && Utf8Length(newPassword) < 6) ==> g == Some(PasswordTooShort)
  {
    if !isPost then Some(WrongMethod)
    else if !loggedIn then Some(Forbidden)
    else if Empty(current) || Empty(newPassword) || Empty(confirm) then Some(MissingFields)
    else if newPassword != confirm then Some(PasswordMismatch)
    else if Utf8Length(newPassword) < 6 then Some(PasswordTooShort)
    else None
  }

  /** `change_password`: the stored hash is read by the session's user id,
      with no check that the account is active. */
  method ChangePassword(db: Database, session: Session, ctx: Context, current: string, newPassword: string, confirm: string,
                        verify: (string, string) -> bool, hash: string -> string)
    returns (r: Response<()>)
    requires db.Valid()
    modifies db`users, db`activityLogs
    ensures db.Valid()
    ensures ChangeGuard(ctx.isPost, session.LoggedIn(), current, newPassword, confirm).Some? ==>
      && r == Failure(ChangeGuard(ctx.isPost, session.LoggedIn(), current, newPassword, confirm).value)
      && db.users == old(db.users) && db.activityLogs == old(db.activityLogs)
    ensures ChangeGuard(ctx.isPost, session.LoggedIn(), current, newPassword, confirm).None? ==>
      var id := session.userId.value;
      var i := FirstWhere(old(db.users), u => HasId(u, id));
      if i.Some? && verify(current, old(db.users)[i.value].passwordHash) then
        && r == Success(())
        && db.users == Touch(old(db.users), id, SetHash(hash(newPassword)))
        && db.activityLogs == old(db.activityLogs) + [LogEntry(Some(id), "password_change", "تم تغيير كلمة المرور", ctx.ip, None)]
      else
        r == Failure(WrongCredentials) && db.users == old(db.users) && db.activityLogs == old(db.activityLogs)
  {
    var g := ChangeGuard(ctx.isPost, session.LoggedIn(), current, newPassword, confirm);
    if g.Some? {
      return Failure(g.value);
    }
    var id := session.userId.value;
    var i := FirstWhere(db.users, u => HasId(u, id));
    if i.Some? && verify(current, db.users[i.value].passwordHash) {
      db.users := Touch(db.users, id, SetHash(hash(newPassword)));
      db.activityLogs := db.activityLogs + [LogEntry(Some(id), "password_change", "تم تغيير كلمة المرور", ctx.ip, None)];
      r := Success(());
    } else {
      r := Failure(WrongCredentials);
    }
  }

  /** When verification accepts what hashing produced, a changed password
      is the one the account now accepts, and the account's pending reset
      token is left as it was. */
  lemma ChangedPasswordIsAccepted(users: seq<User>, k: nat, newPassword: string,
                                  verify: (string, string) -> bool, hash: string -> string)
    requires UserIdsUnique(users) && k < |users|
    requires verify(newPassword, hash(newPassword))
    ensures var after := Touch(users, users[k].id, SetHash(hash(newPassword)));
            && verify(newPassword, after[k].passwordHash)
            && after[k].resetToken == users[k].resetToken
            && forall j :: 0 <= j < |users| && j != k ==> after[j] == users[j]
  {
    TouchOne(users, k, SetHash(hash(newPassword)));
  }
}
