/** The account rules of server/auth.ts: the stored password format, login, registration and the three
    password-reset handlers. The key-derivation function (scrypt with a 64-byte output), the 16 random salt
    bytes, the `Math.random()` draw and the clock are parameters. */
module Auth {

  import opened Schema
  import opened Text
  import opened Storage

  /** A 64-byte key-derivation output. */
  type Digest = s: seq<byte> | |s| == 64 witness seq(64, i => 0 as byte)

  /** The salt drawn for each new password: 16 random bytes. */
  type Salt = s: seq<byte> | |s| == 16 witness seq(16, i => 0 as byte)

  /** The key-derivation function, applied to the password and the salt's hex text. */
  type Kdf = (string, string) -> Digest

  // ---- the stored password format ----

  /** `hashPassword`: the hex of the derived key, a '.', then the hex of the salt. */
  function HashPassword(password: string, salt: Salt, kdf: Kdf): (stored: string)
    ensures |stored| == 2 * 64 + 1 + 2 * 16
    ensures Split(stored, '.') == [HexEncode(kdf(password, HexEncode(salt))), HexEncode(salt)]
  {
    var hashed, saltText := HexEncode(kdf(password, HexEncode(salt))), HexEncode(salt);
    SplitWithoutSeparator(saltText, '.');
    SplitAtFirst(hashed, '.', saltText);
    hashed + "." + saltText
  }

  /** `comparePasswords`: splits the stored text at '.', hex-decodes the first piece and compares it with
      the key derived from the supplied password and the second piece. `None` where the JavaScript throws:
      a stored text without a '.' leaves the salt undefined, which scrypt refuses, and `timingSafeEqual`
      refuses buffers of different lengths. */
  function ComparePasswords(supplied: string, stored: string, kdf: Kdf): (r: Option<bool>)
    ensures r.Some? <==> '.' in stored && |HexDecode(Split(stored, '.')[0])| == 64
    ensures r == Some(true) <==>
      |Split(stored, '.')| >= 2 && HexDecode(Split(stored, '.')[0]) == kdf(supplied, Split(stored, '.')[1])
  {
    SplitPieces(stored, '.');
    var parts := Split(stored, '.');
    if |parts| < 2 then None
    else
      var hashed := HexDecode(parts[0]);
      var derived := kdf(supplied, parts[1]);
      if |hashed| != |derived| then None else Some(hashed == derived)
  }

  /** Checking a password against a stored hash never fails, and succeeds exactly when the two passwords
      derive the same key under that hash's salt; in particular the password that was hashed is accepted. */
  lemma ComparePasswordsHashed(supplied: string, password: string, salt: Salt, kdf: Kdf)
    ensures ComparePasswords(supplied, HashPassword(password, salt, kdf), kdf)
            == Some(kdf(supplied, HexEncode(salt)) == kdf(password, HexEncode(salt)))
    ensures ComparePasswords(password, HashPassword(password, salt, kdf), kdf) == Some(true)
  {
    HexRoundTrip(kdf(password, HexEncode(salt)));
  }

  // ---- login ----

  datatype LoginOutcome =
    | LoggedIn(user: User)  // 200, the session now holds `user`
    | Rejected              // 401
    | Failed                // the password check threw; no session is established

  /** The local strategy: look up the first user with that name and check the password. */
  function Login(store: MemStorage, username: string, password: string, kdf: Kdf): (r: LoginOutcome)
    reads store
    ensures r.LoggedIn? <==>
      store.GetUserByUsername(username).Some?
      && ComparePasswords(password, store.GetUserByUsername(username).value.password, kdf) == Some(true)
    ensures r.LoggedIn? ==> r.user == store.GetUserByUsername(username).value
    ensures store.GetUserByUsername(username).None? ==> r == Rejected
    ensures r == Failed ==>
      ComparePasswords(password, store.GetUserByUsername(username).value.password, kdf).None?
  {
    match store.GetUserByUsername(username)
    case None => Rejected
    case Some(user) =>
      match ComparePasswords(password, user.password, kdf)
      case None => Failed
      case Some(ok) => if ok then LoggedIn(user) else Rejected
  }

  // ---- registration ----

  /** No two users share a name. */
  predicate UniqueUsernames(users: seq<User>)
  {
    forall i, j :: 0 <= i < j < |users| ==> users[i].username != users[j].username
  }

  /** Appending a user whose name is new makes that user the one found by name. */
  lemma {:induction false} FindUsernameAppended(users: seq<User>, user: User)
    requires forall u :: u in users ==> u.username != user.username
    ensures FindUsername(users + [user], user.username) == |users|
  {
    if users != [] {
      assert (users + [user])[1..] == users[1..] + [user];
      assert forall u :: u in users[1..] ==> u in users;
      FindUsernameAppended(users[1..], user);
    }
  }

  /** POST /api/register: refuses a name already taken (400, nothing created); otherwise stores the request
      body, with its password replaced by the password's hash, as a new user (the role defaulting to student;
      any reset code and expiry in the body are kept) and logs them in (201). */
  method Register(store: MemStorage, body: InsertUser, salt: Salt, kdf: Kdf)
    returns (status: Status, user: Option<User>)
    requires store.Valid()
    modifies store
    ensures store.Valid()
    ensures store.quizzes == old(store.quizzes) && store.attempts == old(store.attempts)
    ensures store.achievements == old(store.achievements)
    ensures old(store.GetUserByUsername(body.username)).Some? ==>
      status == BadRequest400 && user.None? && store.users == old(store.users)
    ensures old(store.GetUserByUsername(body.username)).None? ==>
      && status == Created201
      && user == Some(User(|old(store.users)| + 1, body.username, HashPassword(body.password, salt, kdf),
                           if body.role.Some? then body.role.value else Student,
                           body.resetCode, body.resetCodeExpiry, []))
      && store.users == old(store.users) + [user.value]
      && Login(store, body.username, body.password, kdf) == LoggedIn(user.value)
      && (forall code, now :: store.ValidateResetCode(body.username, code, now) <==> CodeAccepted(user.value, code, now))
    ensures UniqueUsernames(old(store.users)) ==> UniqueUsernames(store.users)
  {
    var existing := store.GetUserByUsername(body.username);
    if existing.Some? {
      return BadRequest400, None;
    }
    ghost var before := store.users;
    var created := store.CreateUser(body.(password := HashPassword(body.password, salt, kdf)));
    FindUsernameAppended(before, created);
    ComparePasswordsHashed(body.password, body.password, salt, kdf);
    assert forall i :: 0 <= i < |before| ==> store.users[i] in before;
    status, user := Created201, Some(created);
  }

  // ---- password reset ----

  /** How long a reset code stays valid: thirty minutes, in milliseconds. */
  const ResetCodeLifetime := 30 * 60 * 1000

  /** `Math.floor(100000 + Math.random() * 900000)`, with the draw taken as an exact real in [0, 1). */
  function ResetCodeDraw(random: real): (n: int)
    requires 0.0 <= random < 1.0
    ensures 100000 <= n <= 999999
  {
    (100000.0 + random * 900000.0).Floor
  }

  /** Every drawn code renders as exactly six decimal digits, and reads back as the number drawn. */
  lemma ResetCodeSixDigits(random: real)
    requires 0.0 <= random < 1.0
    ensures var code := NatToString(ResetCodeDraw(random));
      |code| == 6 && DecimalValue(code) == ResetCodeDraw(random)
  {
    assert Pow10(5) == 100000 by {
      assert Pow10(1) == 10;
      assert Pow10(3) == 1000;
    }
    DigitCount(ResetCodeDraw(random), 5);
    DecimalRoundTrip(ResetCodeDraw(random));
  }

  /** POST /api/request-reset: answers 200 either way, so as not to reveal whether the name exists. For an
      unknown name nothing changes; otherwise a six-digit code is stored on the first user with that name,
      valid until `now` plus thirty minutes, and returned. */
  method RequestReset(store: MemStorage, username: string, random: real, now: int)
    returns (status: Status, code: Option<string>)
    requires store.Valid()
    requires 0.0 <= random < 1.0
    modifies store
    ensures store.Valid()
    ensures status == OK200
    ensures store.quizzes == old(store.quizzes) && store.attempts == old(store.attempts)
    ensures store.achievements == old(store.achievements)
    ensures old(store.GetUserByUsername(username)).None? ==> code.None? && store.users == old(store.users)
    ensures old(store.GetUserByUsername(username)).Some? ==>
      var k := FindUsername(old(store.users), username);
      && code == Some(NatToString(ResetCodeDraw(random)))
      && |code.value| == 6
      && 100000 <= DecimalValue(code.value) <= 999999
      && store.users == old(store.users)[k := old(store.users)[k].(resetCode := code, resetCodeExpiry := Some(now + ResetCodeLifetime))]
      && forall t :: store.ValidateResetCode(username, code.value, t) <==> t <= now + ResetCodeLifetime
  {
    var user := store.GetUserByUsername(username);
    if user.None? {
      return OK200, None;
    }
    var drawn := ResetCodeDraw(random);
    ResetCodeSixDigits(random);
    var text := NatToString(drawn);
    var found := store.SetResetCode(username, text, now + ResetCodeLifetime);
    status, code := OK200, Some(text);
  }

  /** POST /api/verify-reset-code: 200 when the code is accepted at `now`, 400 otherwise; changes nothing. */
  function VerifyResetCode(store: MemStorage, username: string, code: string, now: int): (status: Status)
    reads store
    ensures status == OK200 || status == BadRequest400
    ensures status == OK200 <==>
      store.GetUserByUsername(username).Some? && CodeAccepted(store.GetUserByUsername(username).value, code, now)
  {
    if store.ValidateResetCode(username, code, now) then OK200 else BadRequest400
  }

  /** POST /api/reset-password: with an accepted code, stores the hash of the new password on the first user
      with that name and clears the code, which then opens nothing, and the new password logs in (200);
      otherwise 400 and nothing changes. */
  method ResetPasswordRoute(
    store: MemStorage, username: string, code: string, newPassword: string, now: int, salt: Salt, kdf: Kdf)
    returns (status: Status)
    requires store.Valid()
    modifies store
    ensures store.Valid()
    ensures store.quizzes == old(store.quizzes) && store.attempts == old(store.attempts)
    ensures store.achievements == old(store.achievements)
    ensures !old(store.ValidateResetCode(username, code, now)) ==>
      status == BadRequest400 && store.users == old(store.users)
    ensures old(store.ValidateResetCode(username, code, now)) ==>
      var k := FindUsername(old(store.users), username);
      && status == OK200
      && store.users == old(store.users)[k := old(store.users)[k].(
           password := HashPassword(newPassword, salt, kdf), resetCode := None, resetCodeExpiry := None)]
      && (forall c, t :: !store.ValidateResetCode(username, c, t))
      && Login(store, username, newPassword, kdf) == LoggedIn(store.users[k])
  {
    var valid := store.ValidateResetCode(username, code, now);
    if !valid {
      return BadRequest400;
    }
    var hashed := HashPassword(newPassword, salt, kdf);
    var found := store.ResetPassword(username, hashed);
    ComparePasswordsHashed(newPassword, newPassword, salt, kdf);
    status := OK200;
  }
}
