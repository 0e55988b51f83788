/** The account lifecycle (auth.service.ts) over the user store. The bcrypt comparison is
    a parameter `check(plain, hash)`; hashes, random tokens and the clock (`Date.now()`, in
    milliseconds) are arguments. Issuing JWTs is not modelled: a successful login yields
    the user the tokens would be issued for. */
module Auth {
  import opened Wrappers
  import opened Exceptions
  import opened UserEntity
  import opened Users

  const InvalidCredentials: string := "Invalid credentials"
  const VerifyFirst: string := "Please verify your account first"
  const RegisteredMessage: string := "Registration successful. Please check your email to verify your account."
  const ResetLinkMessage: string := "If the email exists, a reset link has been sent."
  const InvalidResetToken: string := "Invalid or expired reset token"
  const PasswordResetMessage: string := "Password has been reset successfully"
  const InvalidVerificationToken: string := "Invalid verification token"
  const VerifiedMessage: string := "Account has been verified successfully"

  /** How long a reset token stays usable: one hour, in milliseconds. */
  const ResetWindow: int := 3600000

  /** validateUser: the row with this email, when the password matches its hash. */
  function ValidateUser(s: Store, email: string, password: string, check: (string, string) -> bool)
    : (r: Option<User>)
    requires ValidStore(s)
    ensures r.Some? ==> r.value.id in s.users && s.users[r.value.id] == r.value
    ensures r.Some? ==> r.value.email == email && check(password, r.value.password)
    ensures r.None? <==>
      forall id :: id in s.users && s.users[id].email == email ==> !check(password, s.users[id].password)
  {
    match FindOneBy(s, ByEmail(email))
    case None => None
    case Some(u) => if check(password, u.password) then Some(u) else None
  }

  /** login, up to the issue of tokens: unknown email or wrong password first, then an
      unverified account, is refused. */
  function Login(s: Store, email: string, password: string, check: (string, string) -> bool)
    : (r: Result<User, HttpException>)
    requires ValidStore(s)
    ensures ValidateUser(s, email, password, check).None? ==> r == Err(Unauthorized(InvalidCredentials))
    ensures ValidateUser(s, email, password, check).Some? && !ValidateUser(s, email, password, check).value.isVerified
            ==> r == Err(Unauthorized(VerifyFirst))
    ensures ValidateUser(s, email, password, check).Some? && ValidateUser(s, email, password, check).value.isVerified
            ==> r == Ok(ValidateUser(s, email, password, check).value)
    ensures r.Ok? ==> r.value.id in s.users && s.users[r.value.id] == r.value
    ensures r.Ok? ==> r.value.email == email && check(password, r.value.password) && r.value.isVerified
  {
    match ValidateUser(s, email, password, check)
    case None => Err(Unauthorized(InvalidCredentials))
    case Some(user) => if !user.isVerified then Err(Unauthorized(VerifyFirst)) else Ok(user)
  }

  datatype Registration = Registration(store: Store, message: string, user: User)

  /** register: creates an unverified USER holding a fresh verification token. `hashed` is
      the hash of the password. The classification of unexpected failures is not
      modelled; the one failure the store can produce, the Conflict, is passed on. */
  function Register(s: Store, email: string, password: string, token: string, hashed: string)
    : (r: Result<Registration, HttpException>)
    requires ValidStore(s)
    ensures r.Err? <==> EmailTaken(s, email)
    ensures r.Err? ==> r.error == Conflict(EmailExistsMessage)
    ensures r.Ok? ==>
      var u := r.value.user;
      && u.id !in s.users && r.value.store.users == s.users[u.id := u] && ValidStore(r.value.store)
      && u.email == email && u.password == hashed && u.role == USER
      && !u.isVerified && u.verificationToken == Some(token)
      && u.resetPasswordToken.None? && u.resetPasswordExpires.None?
      && r.value.message == RegisteredMessage
  {
    var created :- CreateUser(s, UserCreateInput(email, password, None, Some(false), Some(token)), None, hashed);
    Ok(Registration(created.0, RegisteredMessage, created.1))
  }

  /** A freshly registered account cannot log in, whatever password is offered. */
  lemma RegisteredCannotLogin(s: Store, email: string, password: string, token: string, hashed: string,
                              attempt: string, check: (string, string) -> bool)
    requires ValidStore(s) && Register(s, email, password, token, hashed).Ok?
    ensures Login(Register(s, email, password, token, hashed).value.store, email, attempt, check).Err?
  {
    var reg := Register(s, email, password, token, hashed).value;
    var v := ValidateUser(reg.store, email, attempt, check);
    if v.Some? {
      assert reg.store.users[reg.user.id].email == email;
      assert v.value == reg.user;
    }
  }

  /** The row with a reset token and expiry set. */
  function WithResetToken(u: User, token: string, expires: int): User {
    u.(resetPasswordToken := Some(token), resetPasswordExpires := Some(expires))
  }

  /** forgotPassword: the same reply whether or not the email is known. For a known email
      the row gets a new reset token expiring an hour from now, replacing any earlier
      one; every other row is left alone. */
  function ForgotPassword(s: Store, email: string, token: string, now: int)
    : (r: Result<(Store, string), HttpException>)
    requires ValidStore(s)
    ensures r.Ok? && r.value.1 == ResetLinkMessage && ValidStore(r.value.0)
    ensures !EmailTaken(s, email) ==> r.value.0 == s
    ensures r.value.0.users.Keys == s.users.Keys
    ensures forall id :: id in s.users ==>
      r.value.0.users[id] ==
        if s.users[id].email == email then WithResetToken(s.users[id], token, now + ResetWindow)
        else s.users[id]
  {
    match FindOneBy(s, ByEmail(email))
    case None => Ok((s, ResetLinkMessage))
    case Some(user) =>
      match UpdateUserById(s, user.id,
        UserPatch(None, None, None, None, None, Some(Some(token)), Some(Some(now + ResetWindow))))
      case Ok(updated) => Ok((updated.0, ResetLinkMessage))
      case Err(e) => Err(e)
  }

  /** An expiry that has not passed: equal to now still counts. */
  predicate Unexpired(u: User, now: int) {
    u.resetPasswordExpires.Some? && u.resetPasswordExpires.value >= now
  }

  /** The row after a password reset: new hash, token and expiry cleared. */
  function AfterReset(u: User, hashed: string): User {
    u.(password := hashed, resetPasswordToken := None, resetPasswordExpires := None)
  }

  /** resetPassword: the row holding the key must have an expiry that has not passed. */
  function ResetPassword(s: Store, key: string, hashed: string, now: int)
    : (r: Result<(Store, string), HttpException>)
    requires ValidStore(s)
    ensures var holder := FindOneBy(s, ByResetToken(key));
      r.Ok? <==> holder.Some? && Unexpired(holder.value, now)
    ensures r.Err? ==> r.error == BadRequest(InvalidResetToken)
    ensures r.Ok? ==>
      var u := FindOneBy(s, ByResetToken(key)).value;
      && r.value.0.users == s.users[u.id := AfterReset(u, hashed)] && ValidStore(r.value.0)
      && r.value.1 == PasswordResetMessage
  {
    match FindOneBy(s, ByResetToken(key))
    case None => Err(BadRequest(InvalidResetToken))
    case Some(user) =>
      if user.resetPasswordExpires.None? || user.resetPasswordExpires.value < now then
        Err(BadRequest(InvalidResetToken))
      else
        match UpdateUserById(s, user.id, UserPatch(None, Some(hashed), None, None, None, Some(None), Some(None)))
        case Ok(updated) => Ok((updated.0, PasswordResetMessage))
        case Err(e) => Err(e)
  }

  /** The row after verification: new hash, verified, token cleared. */
  function AfterVerification(u: User, hashed: string): User {
    u.(password := hashed, isVerified := true, verificationToken := None)
  }

  /** verifyAccount: the row holding the key becomes verified. */
  function VerifyAccount(s: Store, key: string, hashed: string): (r: Result<(Store, string), HttpException>)
    requires ValidStore(s)
    ensures r.Ok? <==> FindOneBy(s, ByVerificationToken(key)).Some?
    ensures r.Err? ==> r.error == BadRequest(InvalidVerificationToken)
    ensures r.Ok? ==>
      var u := FindOneBy(s, ByVerificationToken(key)).value;
      && r.value.0.users == s.users[u.id := AfterVerification(u, hashed)] && ValidStore(r.value.0)
      && r.value.1 == VerifiedMessage
  {
    match FindOneBy(s, ByVerificationToken(key))
    case None => Err(BadRequest(InvalidVerificationToken))
    case Some(user) =>
      match UpdateUserById(s, user.id, UserPatch(None, Some(hashed), None, Some(true), Some(None), None, None))
      case Ok(updated) => Ok((updated.0, VerifiedMessage))
      case Err(e) => Err(e)
  }

  /** At most one row holds the token. Tokens are 32 random bytes; the model does not
      assume they never collide, so the single-use lemmas ask for it. */
  predicate HeldOnce(s: Store, c: Criterion) {
    forall a, b :: a in s.users && b in s.users && Meets(s.users[a], c) && Meets(s.users[b], c) ==> a == b
  }

  /** A reset token works once: after a successful reset the same key is refused. */
  lemma ResetTokenSingleUse(s: Store, key: string, hashed: string, now: int, hashed2: string, later: int)
    requires ValidStore(s) && HeldOnce(s, ByResetToken(key))
    requires ResetPassword(s, key, hashed, now).Ok?
    ensures ResetPassword(ResetPassword(s, key, hashed, now).value.0, key, hashed2, later)
      == Err(BadRequest(InvalidResetToken))
  {
    var s' := ResetPassword(s, key, hashed, now).value.0;
    var u := FindOneBy(s, ByResetToken(key)).value;
    forall id | id in s'.users ensures !Meets(s'.users[id], ByResetToken(key)) {
      if id != u.id {
        assert s'.users[id] == s.users[id];
      }
    }
  }

  /** A verification token works once: after a successful verification the same key is
      refused. */
  lemma VerificationTokenSingleUse(s: Store, key: string, hashed: string, hashed2: string)
    requires ValidStore(s) && HeldOnce(s, ByVerificationToken(key))
    requires VerifyAccount(s, key, hashed).Ok?
    ensures VerifyAccount(VerifyAccount(s, key, hashed).value.0, key, hashed2)
      == Err(BadRequest(InvalidVerificationToken))
  {
    var s' := VerifyAccount(s, key, hashed).value.0;
    var u := FindOneBy(s, ByVerificationToken(key)).value;
    forall id | id in s'.users ensures !Meets(s'.users[id], ByVerificationToken(key)) {
      if id != u.id {
        assert s'.users[id] == s.users[id];
      }
    }
  }

  /** The reset link works until its expiry and not after: a token issued at `now`, held
      by no other row, is accepted at any time up to and including an hour later. */
  lemma ForgotThenReset(s: Store, email: string, token: string, now: int, hashed: string, at: int)
    requires ValidStore(s) && EmailTaken(s, email)
    requires forall id :: id in s.users ==> !Meets(s.users[id], ByResetToken(token))
    ensures ResetPassword(ForgotPassword(s, email, token, now).value.0, token, hashed, at).Ok?
      <==> at <= now + ResetWindow
  {
    var s' := ForgotPassword(s, email, token, now).value.0;
    var id :| id in s.users && s.users[id].email == email;
    assert Meets(s'.users[id], ByResetToken(token));
    var holder := FindOneBy(s', ByResetToken(token));
    assert holder.value.id == id;
  }

  /** Verifying an account with a password makes it able to log in with that password. */
  lemma VerifyThenLogin(s: Store, key: string, password: string, hashed: string, check: (string, string) -> bool)
    requires ValidStore(s) && VerifyAccount(s, key, hashed).Ok?
    requires check(password, hashed)
    ensures var u := FindOneBy(s, ByVerificationToken(key)).value;
      Login(VerifyAccount(s, key, hashed).value.0, u.email, password, check) == Ok(AfterVerification(u, hashed))
  {
    var s' := VerifyAccount(s, key, hashed).value.0;
    var u := FindOneBy(s, ByVerificationToken(key)).value;
    assert s'.users[u.id] == AfterVerification(u, hashed);
    var found := FindOneBy(s', ByEmail(u.email));
    assert found.value.id == u.id;
  }
}
