/** The account routes of main.py: register (Unregistered to pending verification), verify-otp (pending
    to verified, and a no-op once verified) and token (login, allowed only for verified accounts). Each
    handler is a method over the users collection whose effect is given by a step function on the
    collection's documents; the lemmas below are about the step functions. The clock, the OTP draw, the
    password salt, the `_id` the driver generates and whether the OTP mail went out are parameters. */
module AuthFlow {
  import opened Wrappers
  import opened Http
  import opened PyText
  import opened ObjectIds
  import opened Crypto
  import opened Store
  import opened Models
  import opened Auth

  const OtpMin := 100000
  const OtpMax := 999999
  /** An OTP is valid for ten minutes, in seconds. */
  const OtpLifetime := 10 * 60

  // ---- e-mail normalisation -----------------------------------------------------------------------

  /** `email.strip().lower()`: the slice of `email` between its surrounding whitespace, with each
      character lower-cased. */
  function NormalizeEmail(email: string): (e: string)
    ensures IsTrimmed(e)
    ensures |e| <= |email|
    ensures exists a, b :: 0 <= a <= b <= |email| && e == Lower(email[a..b])
                           && (forall i :: 0 <= i < a ==> IsSpace(email[i]))
                           && (forall i :: b <= i < |email| ==> IsSpace(email[i]))
  {
    var t := Strip(email);
    LowerKeepsTrimmed(t);
    Lower(t)
  }

  /** An address in normal form: no surrounding whitespace and no upper-case ASCII letter. */
  predicate IsNormalEmail(e: string) {
    IsTrimmed(e) && forall i :: 0 <= i < |e| ==> !('A' <= e[i] <= 'Z')
  }

  /** Normalising gives an address in normal form, and an address in normal form normalises to itself. */
  lemma NormalForm(email: string)
    ensures IsNormalEmail(NormalizeEmail(email))
    ensures IsNormalEmail(email) ==> NormalizeEmail(email) == email && Lower(email) == email
  {
    if IsNormalEmail(email) {
      StripFixesTrimmed(email);
      LowerFixesLowerCase(email);
    }
  }

  /** A normalised address is its own normal form. */
  lemma NormalizeEmailIdempotent(email: string)
    ensures NormalizeEmail(NormalizeEmail(email)) == NormalizeEmail(email)
  {
    NormalForm(email);
    NormalForm(NormalizeEmail(email));
  }

  /** An address without surrounding whitespace normalises to its lower-case form. */
  lemma NormalizeTrimmed(email: string)
    requires IsTrimmed(email)
    ensures NormalizeEmail(email) == Lower(email)
  {
    StripFixesTrimmed(email);
  }

  /** `" A@B.com "` and `"a@b.com"` are the same account. */
  lemma CaseAndSpaceVariantsCollide()
    ensures NormalizeEmail(" A@B.com ") == "a@b.com"
    ensures NormalizeEmail("a@b.com") == "a@b.com"
  {
    var inner := "A@B.com";
    assert " A@B.com " == [' '] + inner + [' '];
    StripPadded(inner);
    LowerExample();
    assert NormalizeEmail(" A@B.com ") == "a@b.com";
    NormalForm(" A@B.com ");
    NormalForm("a@b.com");
  }

  /** Lower-casing touches only the ASCII capitals: `"A@B.com"` becomes `"a@b.com"`. */
  lemma LowerExample()
    ensures Lower("A@B.com") == "a@b.com"
  {
    var lowered := Lower("A@B.com");
    forall i | 0 <= i < 7
      ensures lowered[i] == "a@b.com"[i]
    {
      assert lowered[i] == LowerChar("A@B.com"[i]);
    }
  }

  /** One space on each side of a trimmed, non-empty address is stripped away. */
  lemma StripPadded(inner: string)
    requires inner != [] && IsTrimmed(inner)
    ensures Strip([' '] + inner + [' ']) == inner
  {
    var padded := [' '] + inner + [' '];
    var tail := inner + [' '];
    assert padded[1..] == tail;
    assert TrimStart(padded) == TrimStart(tail);
    assert tail[0] == inner[0];
    assert TrimStart(tail) == tail;
    assert tail[..|inner|] == inner;
    assert TrimEnd(tail) == TrimEnd(inner);
    assert TrimEnd(inner) == inner;
  }

  // ---- one-time passwords -------------------------------------------------------------------------

  /** A code as register stores it: six decimal digits, never starting with 0. */
  predicate IsOtpCode(s: string) {
    |s| == 6 && IsDigits(s) && s[0] != '0'
  }

  /** `f"{random.randint(100000, 999999)}"` with the draw passed in: the code spells the drawn number. */
  function OtpString(draw: int): (code: string)
    requires OtpMin <= draw <= OtpMax
    ensures IsOtpCode(code) && DecimalValue(code) == draw
  {
    assert Pow10(5) == 100000 by {
      assert Pow10(1) == 10;
      assert Pow10(2) == 100;
      assert Pow10(3) == 1000;
      assert Pow10(4) == 10000;
    }
    assert Pow10(6) == 1000000;
    DecimalLength(draw, 5);
    DecimalRoundTrip(draw);
    DecimalString(draw)
  }

  /** A code has no surrounding whitespace, so the `strip()` of a correctly typed code matches it. */
  lemma OtpCodeIsTrimmed(code: string)
    requires IsOtpCode(code)
    ensures Strip(code) == code
  {
    assert '0' <= code[0] <= '9' && '0' <= code[|code| - 1] <= '9';
    assert IsTrimmed(code);
    StripFixesTrimmed(code);
  }

  // ---- state of an account ------------------------------------------------------------------------

  datatype AccountState = Unregistered | PendingVerification | Verified

  /** The state of the account registered under a normalised address. */
  function StateOf(users: seq<UserDoc>, email: string): AccountState {
    match FindUserByEmail(users, email)
    case None => Unregistered
    case Some(u) => if u.isVerified then Verified else PendingVerification
  }

  /** The invariant of a users document: a normalised address; the OTP code and its expiry present or
      absent together, and present exactly while the account is unverified; a pending code of six digits. */
  predicate WellFormedUser(d: UserDoc) {
    && IsNormalEmail(d.email)
    && (d.otpCode.Some? <==> d.otpExpiresAt.Some?)
    && (d.isVerified <==> d.otpCode.None?)
    && (d.otpCode.Some? ==> IsOtpCode(d.otpCode.value))
  }

  /** No `_id` twice in the users collection. */
  predicate UniqueUserIds(users: seq<UserDoc>) {
    forall i, j :: 0 <= i < j < |users| ==> users[i].id != users[j].id
  }

  /** The invariant of the users collection: every document well formed, no address and no `_id` twice. */
  predicate WellFormedUsers(users: seq<UserDoc>) {
    && (forall i :: 0 <= i < |users| ==> WellFormedUser(users[i]))
    && (forall i, j :: 0 <= i < j < |users| ==> users[i].email != users[j].email)
    && UniqueUserIds(users)
  }

  /** A document appended after the documents that lack its field value is the first one with it. */
  lemma {:induction false} AppendedIsFirstByEmail(users: seq<UserDoc>, d: UserDoc)
    requires FindUserByEmail(users, d.email).None?
    ensures UserIndexByEmail(users + [d], d.email) == |users|
    ensures FindUserByEmail(users + [d], d.email) == Some(d)
  {
    var s := users + [d];
    var k := UserIndexByEmail(s, d.email);
    assert s[|users|] == d;
  }

  lemma {:induction false} AppendedIsFirstById(users: seq<UserDoc>, d: UserDoc)
    requires FindUserById(users, d.id).None?
    ensures UserIndexById(users + [d], d.id) == |users|
  {
    var s := users + [d];
    var k := UserIndexById(s, d.id);
    assert s[|users|] == d;
  }

  /** Appending a document does not change which document an existing address finds. */
  lemma {:induction false} AppendKeepsLookup(users: seq<UserDoc>, d: UserDoc, email: string)
    requires FindUserByEmail(users, email).Some?
    ensures FindUserByEmail(users + [d], email) == FindUserByEmail(users, email)
  {
    var k := UserIndexByEmail(users, email);
    var k' := UserIndexByEmail(users + [d], email);
    assert (users + [d])[k] == users[k];
  }

  /** Replacing a document by one with the same address does not change which position an address finds. */
  lemma {:induction false} UpdateKeepsIndexByEmail(users: seq<UserDoc>, k: nat, v: UserDoc, email: string)
    requires k < |users| && v.email == users[k].email
    ensures UserIndexByEmail(users[k := v], email) == UserIndexByEmail(users, email)
  {
    if k > 0 {
      assert users[k := v][1..] == users[1..][k - 1 := v];
      UpdateKeepsIndexByEmail(users[1..], k - 1, v, email);
    }
  }

  // ---- register -----------------------------------------------------------------------------------

  const RegisteredMessage := "OTP sent to your email. Please verify to activate your account."
  const RegistrationFailed := HttpError(500, "Internal server error during registration")

  /** The message handed to `send_otp_email`: recipient and code. */
  datatype OtpMail = OtpMail(recipient: string, code: string)

  /** What register leaves behind: the users documents, the OTP mail it tried to send, its response. */
  datatype RegisterOutcome = RegisterOutcome(
    users: seq<UserDoc>,
    mail: Option<OtpMail>,
    response: Result<string, HttpError>)

  /** The document register inserts. */
  function PendingUser(id: ObjectId, email: string, hashed: PasswordHash, draw: int, now: int): (d: UserDoc)
    requires OtpMin <= draw <= OtpMax
    ensures !d.isVerified && d.otpCode == Some(OtpString(draw)) && d.otpExpiresAt == Some(now + OtpLifetime)
  {
    UserDoc(id, email, hashed, false, Some(OtpString(draw)), Some(now + OtpLifetime))
  }

  /** `register`: the duplicate check on the normalised address comes first, then the password bound;
      the pending document is inserted before the OTP mail is sent, so a failed send answers 500 and
      keeps the document. A taken `_id` makes the insert fail, also answered with 500. */
  function RegisterStep(users: seq<UserDoc>, user: UserCreate, draw: int, salt: nat, now: int,
                        newId: ObjectId, mailDelivered: bool): (out: RegisterOutcome)
    requires OtpMin <= draw <= OtpMax
    ensures out.users == users || (|out.users| == |users| + 1 && out.users[..|users|] == users)
  {
    var email := NormalizeEmail(user.email);
    if FindUserByEmail(users, email).Some? then
      RegisterOutcome(users, None, Failure(HttpError(400, "Email already registered")))
    else if Utf8Length(user.password) > MaxPasswordBytes then
      RegisterOutcome(users, None, Failure(HttpError(400, "Password too long")))
    else
      var hashed := GetPasswordHash(Some(user.password), salt).value;
      var doc := PendingUser(newId, email, hashed, draw, now);
      if FindUserById(users, newId).Some? then
        RegisterOutcome(users, None, Failure(RegistrationFailed))
      else
        var mail := OtpMail(email, OtpString(draw));
        RegisterOutcome(users + [doc], Some(mail),
                        if mailDelivered then Success(RegisteredMessage) else Failure(RegistrationFailed))
  }

  /** The register handler. */
  method Register(users: UsersCollection, user: UserCreate, draw: int, salt: nat, now: int,
                  newId: ObjectId, mailDelivered: bool)
    returns (response: Result<string, HttpError>, mail: Option<OtpMail>)
    requires OtpMin <= draw <= OtpMax
    modifies users
    ensures RegisterOutcome(users.docs, mail, response)
            == RegisterStep(old(users.docs), user, draw, salt, now, newId, mailDelivered)
    ensures WellFormedUsers(old(users.docs)) ==> WellFormedUsers(users.docs)
  {
    assert WellFormedUsers(users.docs)
           ==> WellFormedUsers(RegisterStep(users.docs, user, draw, salt, now, newId, mailDelivered).users) by {
      if WellFormedUsers(users.docs) {
        RegisterKeepsWellFormed(users.docs, user, draw, salt, now, newId, mailDelivered);
      }
    }
    mail := None;
    var email := NormalizeEmail(user.email);
    var existing := FindUserByEmail(users.docs, email);
    if existing.Some? {
      response := Failure(HttpError(400, "Email already registered"));
      return;
    }
    if Utf8Length(user.password) > MaxPasswordBytes {
      response := Failure(HttpError(400, "Password too long"));
      return;
    }
    var hashed := GetPasswordHash(Some(user.password), salt);
    var otp := OtpString(draw);
    var expiresAt := now + OtpLifetime;
    var doc := UserDoc(newId, email, hashed.value, false, Some(otp), Some(expiresAt));
    var inserted := users.InsertOne(doc);
    if !inserted {
      response := Failure(RegistrationFailed);
      return;
    }
    mail := Some(OtpMail(email, otp));
    if !mailDelivered {
      response := Failure(RegistrationFailed);
      return;
    }
    response := Success(RegisteredMessage);
  }

  /** Register keeps the collection invariant. */
  lemma {:induction false} RegisterKeepsWellFormed(users: seq<UserDoc>, user: UserCreate, draw: int, salt: nat,
                                                   now: int, newId: ObjectId, mailDelivered: bool)
    requires OtpMin <= draw <= OtpMax
    requires WellFormedUsers(users)
    ensures WellFormedUsers(RegisterStep(users, user, draw, salt, now, newId, mailDelivered).users)
  {
    var out := RegisterStep(users, user, draw, salt, now, newId, mailDelivered);
    if out.users != users {
      var email := NormalizeEmail(user.email);
      NormalForm(user.email);
      var d := PendingUser(newId, email, GetPasswordHash(Some(user.password), salt).value, draw, now);
      assert out.users == users + [d];
      assert WellFormedUser(d);
      AppendKeepsWellFormed(users, d);
    }
  }

  /** Appending a well-formed document under an address and an `_id` nobody has keeps the invariant. */
  lemma AppendKeepsWellFormed(users: seq<UserDoc>, d: UserDoc)
    requires WellFormedUsers(users) && WellFormedUser(d)
    requires FindUserByEmail(users, d.email).None? && FindUserById(users, d.id).None?
    ensures WellFormedUsers(users + [d])
  {
    var after := users + [d];
    forall i, j | 0 <= i < j < |after|
      ensures after[i].email != after[j].email && after[i].id != after[j].id
    {
      if j == |users| {
        assert after[i] == users[i];
      }
    }
  }

  /** Registering an unregistered address with an acceptable password adds exactly one document: the
      pending account with the normalised address, a hash of the password, a six-digit code spelling the
      draw and an expiry ten minutes ahead. The code goes to the normalised address; whether the send
      worked decides only the response. */
  lemma {:induction false} RegisterFromUnregistered(users: seq<UserDoc>, user: UserCreate, draw: int, salt: nat,
                                                    now: int, newId: ObjectId, mailDelivered: bool)
    requires OtpMin <= draw <= OtpMax
    requires StateOf(users, NormalizeEmail(user.email)) == Unregistered
    requires Utf8Length(user.password) <= MaxPasswordBytes
    requires FindUserById(users, newId).None?
    ensures var out := RegisterStep(users, user, draw, salt, now, newId, mailDelivered);
      && |out.users| == |users| + 1
      && out.users[..|users|] == users
      && var d := out.users[|users|];
      && d.id == newId
      && d.email == NormalizeEmail(user.email)
      && VerifyPassword(Some(user.password), d.hashedPassword) == Success(true)
      && !d.isVerified
      && d.otpCode == Some(OtpString(draw)) && IsOtpCode(d.otpCode.value)
      && d.otpExpiresAt == Some(now + OtpLifetime)
      && out.mail == Some(OtpMail(d.email, d.otpCode.value))
      && out.response == (if mailDelivered then Success(RegisteredMessage) else Failure(RegistrationFailed))
      && StateOf(out.users, d.email) == PendingVerification
  {
    HashThenVerify(Some(user.password), Some(user.password), salt);
    var email := NormalizeEmail(user.email);
    var d := PendingUser(newId, email, GetPasswordHash(Some(user.password), salt).value, draw, now);
    RegisterAppends(users, user, draw, salt, now, newId, mailDelivered);
    var after := users + [d];
    assert after[..|users|] == users && after[|users|] == d;
    AppendedIsFirstByEmail(users, d);
  }

  /** Under the same conditions, register appends the pending document and mails its code. */
  lemma RegisterAppends(users: seq<UserDoc>, user: UserCreate, draw: int, salt: nat, now: int,
                        newId: ObjectId, mailDelivered: bool)
    requires OtpMin <= draw <= OtpMax
    requires FindUserByEmail(users, NormalizeEmail(user.email)).None?
    requires Utf8Length(user.password) <= MaxPasswordBytes
    requires FindUserById(users, newId).None?
    ensures var email := NormalizeEmail(user.email);
      var d := PendingUser(newId, email, GetPasswordHash(Some(user.password), salt).value, draw, now);
      RegisterStep(users, user, draw, salt, now, newId, mailDelivered)
      == RegisterOutcome(users + [d], Some(OtpMail(email, OtpString(draw))),
                         if mailDelivered then Success(RegisteredMessage) else Failure(RegistrationFailed))
  {
  }

  /** A fresh address and an acceptable password with an `_id` already in use: the insert raises
      DuplicateKeyError, which the handler answers with 500; nothing is stored and no mail goes out. */
  lemma RegisterIdTaken(users: seq<UserDoc>, user: UserCreate, draw: int, salt: nat, now: int,
                        newId: ObjectId, mailDelivered: bool)
    requires OtpMin <= draw <= OtpMax
    requires StateOf(users, NormalizeEmail(user.email)) == Unregistered
    requires Utf8Length(user.password) <= MaxPasswordBytes
    requires FindUserById(users, newId).Some?
    ensures RegisterStep(users, user, draw, salt, now, newId, mailDelivered)
            == RegisterOutcome(users, None, Failure(RegistrationFailed))
  {
    assert FindUserByEmail(users, NormalizeEmail(user.email)).None?;
    assert GetPasswordHash(Some(user.password), salt).Success?;
  }

  /** Whatever the password, an address whose normal form is taken is refused with 400 and nothing
      changes: the duplicate check precedes the password check. */
  lemma RegisterDuplicate(users: seq<UserDoc>, user: UserCreate, draw: int, salt: nat, now: int,
                          newId: ObjectId, mailDelivered: bool)
    requires OtpMin <= draw <= OtpMax
    requires StateOf(users, NormalizeEmail(user.email)) != Unregistered
    ensures RegisterStep(users, user, draw, salt, now, newId, mailDelivered)
            == RegisterOutcome(users, None, Failure(HttpError(400, "Email already registered")))
  {
  }

  /** A password over 4096 UTF-8 bytes is refused with 400 before anything is inserted. */
  lemma RegisterPasswordTooLong(users: seq<UserDoc>, user: UserCreate, draw: int, salt: nat, now: int,
                                newId: ObjectId, mailDelivered: bool)
    requires OtpMin <= draw <= OtpMax
    requires StateOf(users, NormalizeEmail(user.email)) == Unregistered
    requires Utf8Length(user.password) > MaxPasswordBytes
    ensures RegisterStep(users, user, draw, salt, now, newId, mailDelivered)
            == RegisterOutcome(users, None, Failure(HttpError(400, "Password too long")))
  {
  }

  /** Once an address is registered, in any state and even after a failed OTP mail, registering any
      variant of it that normalises the same way is refused: `" A@B.com "` after `"a@b.com"`. */
  lemma {:induction false} VariantsOfARegisteredAddressCollide(
    users: seq<UserDoc>, first: UserCreate, second: UserCreate, draw: int, salt: nat, now: int,
    newId: ObjectId, mailDelivered: bool, draw2: int, salt2: nat, now2: int, newId2: ObjectId, mail2: bool)
    requires OtpMin <= draw <= OtpMax && OtpMin <= draw2 <= OtpMax
    requires NormalizeEmail(first.email) == NormalizeEmail(second.email)
    requires RegisterStep(users, first, draw, salt, now, newId, mailDelivered).users != users
    ensures var after := RegisterStep(users, first, draw, salt, now, newId, mailDelivered).users;
      RegisterStep(after, second, draw2, salt2, now2, newId2, mail2)
      == RegisterOutcome(after, None, Failure(HttpError(400, "Email already registered")))
  {
    var after := RegisterStep(users, first, draw, salt, now, newId, mailDelivered).users;
    var email := NormalizeEmail(first.email);
    var d := PendingUser(newId, email, GetPasswordHash(Some(first.password), salt).value, draw, now);
    assert after == users + [d];
    AppendedIsFirstByEmail(users, d);
    assert FindUserByEmail(after, NormalizeEmail(second.email)).Some?;
  }

  // ---- verify-otp ---------------------------------------------------------------------------------

  const AlreadyVerifiedMessage := "Email already verified"
  const VerifiedMessage := "Email verified successfully! You can now log in."

  /** What a handler that changes the users collection leaves behind: the documents and its response. */
  datatype UsersOutcome = UsersOutcome(users: seq<UserDoc>, response: Result<string, HttpError>)

  /** `verify_otp` at time `now`: unknown address 400; already verified: success without looking at the
      code; no pending code (missing or empty) or no expiry 400; `now` strictly after the expiry 400;
      a stripped code that differs 400; otherwise the account is verified and its OTP fields removed. */
  function VerifyOtpStep(users: seq<UserDoc>, payload: OTPVerify, now: int): (out: UsersOutcome)
    ensures out.response.Failure? ==> out.users == users && out.response.error.status == 400
    ensures out.users == users
            || (&& FindUserByEmail(users, NormalizeEmail(payload.email)).Some?
                && out.users == MarkVerified(users, FindUserByEmail(users, NormalizeEmail(payload.email)).value.id))
  {
    VerifyOtpAt(users, NormalizeEmail(payload.email), Strip(payload.otp), now)
  }

  /** The body of `verify_otp` once the address has been normalised and the code stripped. */
  function VerifyOtpAt(users: seq<UserDoc>, email: string, otp: string, now: int): (out: UsersOutcome)
    ensures out.response.Failure? ==> out.users == users && out.response.error.status == 400
    ensures out.users == users
            || (FindUserByEmail(users, email).Some? && out.users == MarkVerified(users, FindUserByEmail(users, email).value.id))
  {
    match FindUserByEmail(users, email)
    case None => UsersOutcome(users, Failure(HttpError(400, "User not found")))
    case Some(u) =>
      if u.isVerified then
        UsersOutcome(users, Success(AlreadyVerifiedMessage))
      else if u.otpCode.None? || u.otpCode.value == "" || u.otpExpiresAt.None? then
        UsersOutcome(users, Failure(HttpError(400, "No OTP pending, please register again")))
      else if now > u.otpExpiresAt.value then
        UsersOutcome(users, Failure(HttpError(400, "OTP expired, please register again")))
      else if u.otpCode.value != otp then
        UsersOutcome(users, Failure(HttpError(400, "Invalid OTP")))
      else
        UsersOutcome(MarkVerified(users, u.id), Success(VerifiedMessage))
  }

  /** An address nobody registered is refused with 400 "User not found", and nothing changes. */
  lemma VerifyUnknownAddress(users: seq<UserDoc>, payload: OTPVerify, now: int)
    requires StateOf(users, NormalizeEmail(payload.email)) == Unregistered
    ensures VerifyOtpStep(users, payload, now) == UsersOutcome(users, Failure(HttpError(400, "User not found")))
  {
  }

  /** An unverified account without a code, with an empty code or without an expiry is refused with
      400 "No OTP pending, please register again", whatever code is sent, and nothing changes. */
  lemma VerifyNothingPending(users: seq<UserDoc>, payload: OTPVerify, now: int)
    requires var found := FindUserByEmail(users, NormalizeEmail(payload.email));
      && found.Some? && !found.value.isVerified
      && (found.value.otpCode.None? || found.value.otpCode.value == "" || found.value.otpExpiresAt.None?)
    ensures VerifyOtpStep(users, payload, now)
            == UsersOutcome(users, Failure(HttpError(400, "No OTP pending, please register again")))
  {
    assert VerifyOtpStep(users, payload, now)
           == VerifyOtpAt(users, NormalizeEmail(payload.email), Strip(payload.otp), now);
  }

  /** The verify-otp handler. */
  method VerifyOtp(users: UsersCollection, payload: OTPVerify, now: int) returns (response: Result<string, HttpError>)
    modifies users
    ensures UsersOutcome(users.docs, response) == VerifyOtpStep(old(users.docs), payload, now)
    ensures WellFormedUsers(old(users.docs)) ==> WellFormedUsers(users.docs)
  {
    assert WellFormedUsers(users.docs) ==> WellFormedUsers(VerifyOtpStep(users.docs, payload, now).users) by {
      if WellFormedUsers(users.docs) {
        VerifyKeepsWellFormed(users.docs, payload, now);
      }
    }
    var email := NormalizeEmail(payload.email);
    var otp := Strip(payload.otp);
    var user := FindUserByEmail(users.docs, email);
    if user.None? {
      return Failure(HttpError(400, "User not found"));
    }
    var u := user.value;
    if u.isVerified {
      return Success(AlreadyVerifiedMessage);
    }
    var storedOtp := u.otpCode;
    var expiresAt := u.otpExpiresAt;
    if storedOtp.None? || storedOtp.value == "" || expiresAt.None? {
      return Failure(HttpError(400, "No OTP pending, please register again"));
    }
    if now > expiresAt.value {
      return Failure(HttpError(400, "OTP expired, please register again"));
    }
    if storedOtp.value != otp {
      return Failure(HttpError(400, "Invalid OTP"));
    }
    var _ := users.MarkVerifiedOne(u.id);
    response := Success(VerifiedMessage);
  }

  /** Verify-otp keeps the collection invariant. */
  lemma {:induction false} VerifyKeepsWellFormed(users: seq<UserDoc>, payload: OTPVerify, now: int)
    requires WellFormedUsers(users)
    ensures WellFormedUsers(VerifyOtpStep(users, payload, now).users)
  {
    var out := VerifyOtpStep(users, payload, now);
    if out.users != users {
      var u := FindUserByEmail(users, NormalizeEmail(payload.email)).value;
      MarkVerifiedKeepsWellFormed(users, u.id);
    }
  }

  /** Marking a document verified keeps the collection invariant. */
  lemma MarkVerifiedKeepsWellFormed(users: seq<UserDoc>, id: ObjectId)
    requires WellFormedUsers(users)
    ensures WellFormedUsers(MarkVerified(users, id))
  {
    var k := UserIndexById(users, id);
    if k < |users| {
      var r := MarkVerified(users, id);
      assert forall i :: 0 <= i < |users| ==> r[i].email == users[i].email && r[i].id == users[i].id;
      assert WellFormedUser(r[k]);
    }
  }

  /** Once verified, verify-otp answers success and changes nothing, whatever code and time it is given. */
  lemma VerifyIsIdempotentOnceVerified(users: seq<UserDoc>, payload: OTPVerify, now: int)
    requires StateOf(users, NormalizeEmail(payload.email)) == Verified
    ensures VerifyOtpStep(users, payload, now) == UsersOutcome(users, Success(AlreadyVerifiedMessage))
  {
  }

  /** Verifying twice is verifying once: after a successful verify-otp, the same request again is
      answered "Email already verified" and changes nothing. */
  lemma {:induction false} VerifyTwice(users: seq<UserDoc>, payload: OTPVerify, now: int, later: int)
    requires UniqueUserIds(users)
    requires VerifyOtpStep(users, payload, now).response.Success?
    ensures var once := VerifyOtpStep(users, payload, now).users;
      && StateOf(once, NormalizeEmail(payload.email)) == Verified
      && VerifyOtpStep(once, payload, later) == UsersOutcome(once, Success(AlreadyVerifiedMessage))
  {
    var email := NormalizeEmail(payload.email);
    var once := VerifyOtpStep(users, payload, now).users;
    VerifySucceeded(users, payload, now);
    VerifyIsIdempotentOnceVerified(once, payload, later);
  }

  /** A successful verify-otp leaves the account it found verified. */
  lemma VerifySucceeded(users: seq<UserDoc>, payload: OTPVerify, now: int)
    requires UniqueUserIds(users)
    requires VerifyOtpStep(users, payload, now).response.Success?
    ensures StateOf(VerifyOtpStep(users, payload, now).users, NormalizeEmail(payload.email)) == Verified
  {
    VerifySucceededAt(users, NormalizeEmail(payload.email), Strip(payload.otp), now);
  }

  /** The same, stated on the normalised address and the stripped code. */
  lemma VerifySucceededAt(users: seq<UserDoc>, email: string, otp: string, now: int)
    requires UniqueUserIds(users)
    requires VerifyOtpAt(users, email, otp, now).response.Success?
    ensures StateOf(VerifyOtpAt(users, email, otp, now).users, email) == Verified
  {
    var out := VerifyOtpAt(users, email, otp, now);
    var u := FindUserByEmail(users, email).value;
    if u.isVerified {
      assert out.users == users;
    } else {
      assert out.users == MarkVerified(users, u.id);
      MarkFirstVerifies(users, email);
    }
  }

  /** With distinct identifiers, marking the first account with an address verified verifies it. */
  lemma MarkFirstVerifies(users: seq<UserDoc>, email: string)
    requires UniqueUserIds(users)
    requires UserIndexByEmail(users, email) < |users|
    ensures StateOf(MarkVerified(users, users[UserIndexByEmail(users, email)].id), email) == Verified
  {
    var u := users[UserIndexByEmail(users, email)];
    FirstByEmailIsFirstById(users, email);
    VerifiedStaysVerifiedAt(users, u.id, email);
  }

  /** Verify-otp with the right code, in time, on a pending account just appended under a new address
      and a new `_id`, verifies exactly that account. */
  lemma VerifyAppended(users: seq<UserDoc>, d: UserDoc, otp: string, now: int)
    requires FindUserByEmail(users, d.email).None? && FindUserById(users, d.id).None?
    requires !d.isVerified && d.otpCode == Some(otp) && otp != ""
    requires d.otpExpiresAt.Some? && now <= d.otpExpiresAt.value
    ensures VerifyOtpAt(users + [d], d.email, otp, now) == UsersOutcome(users + [VerifiedDoc(d)], Success(VerifiedMessage))
  {
    AppendedIsFirstByEmail(users, d);
    AppendedIsFirstById(users, d);
    assert MarkVerified(users + [d], d.id) == users + [VerifiedDoc(d)];
  }

  /** With distinct identifiers, the first account with an address is also the first with its `_id`. */
  lemma FirstByEmailIsFirstById(users: seq<UserDoc>, email: string)
    requires UniqueUserIds(users)
    requires UserIndexByEmail(users, email) < |users|
    ensures var i := UserIndexByEmail(users, email);
      UserIndexById(users, users[i].id) == i
  {
    var i := UserIndexByEmail(users, email);
    var k := UserIndexById(users, users[i].id);
    assert users[k].id == users[i].id;
  }

  /** Marking the first document with `id` verified keeps every verified account verified, and verifies
      the account it lands on. */
  lemma {:induction false} VerifiedStaysVerifiedAt(users: seq<UserDoc>, id: ObjectId, email: string)
    ensures StateOf(users, email) == Verified ==> StateOf(MarkVerified(users, id), email) == Verified
    ensures UserIndexById(users, id) < |users| && users[UserIndexById(users, id)].email == email
            && UserIndexByEmail(users, email) == UserIndexById(users, id)
            ==> StateOf(MarkVerified(users, id), email) == Verified
  {
    var k := UserIndexById(users, id);
    if k < |users| {
      UpdateKeepsIndexByEmail(users, k, VerifiedDoc(users[k]), email);
    }
  }

  /** A pending account with code `c` and expiry `x`: at a time after `x` the request fails as expired
      whatever the code; up to and including `x`, a code that strips to `c` verifies the account,
      removes both OTP fields, and leaves every other document and field as it was; any other code is
      "Invalid OTP". */
  lemma {:induction false} VerifyPending(users: seq<UserDoc>, payload: OTPVerify, now: int)
    requires WellFormedUsers(users)
    requires StateOf(users, NormalizeEmail(payload.email)) == PendingVerification
    ensures var i := UserIndexByEmail(users, NormalizeEmail(payload.email));
      var u := users[i];
      var out := VerifyOtpStep(users, payload, now);
      && u.otpCode.Some? && u.otpExpiresAt.Some?
      && (now > u.otpExpiresAt.value ==>
            out == UsersOutcome(users, Failure(HttpError(400, "OTP expired, please register again"))))
      && (now <= u.otpExpiresAt.value && Strip(payload.otp) != u.otpCode.value ==>
            out == UsersOutcome(users, Failure(HttpError(400, "Invalid OTP"))))
      && (now <= u.otpExpiresAt.value && Strip(payload.otp) == u.otpCode.value ==>
            && out.response == Success(VerifiedMessage)
            && out.users == users[i := u.(isVerified := true, otpCode := None, otpExpiresAt := None)])
  {
    var email := NormalizeEmail(payload.email);
    var i := UserIndexByEmail(users, email);
    assert WellFormedUser(users[i]);
    VerifyPendingAt(users, email, Strip(payload.otp), now);
  }

  /** The same, stated on the normalised address and the stripped code, for an account whose code is
      present and non-empty and whose expiry is present. */
  lemma VerifyPendingAt(users: seq<UserDoc>, email: string, otp: string, now: int)
    requires UniqueUserIds(users)
    requires UserIndexByEmail(users, email) < |users|
    requires var u := users[UserIndexByEmail(users, email)];
      !u.isVerified && u.otpCode.Some? && u.otpCode.value != "" && u.otpExpiresAt.Some?
    ensures var i := UserIndexByEmail(users, email);
      var u := users[i];
      var out := VerifyOtpAt(users, email, otp, now);
      && (now > u.otpExpiresAt.value ==>
            out == UsersOutcome(users, Failure(HttpError(400, "OTP expired, please register again"))))
      && (now <= u.otpExpiresAt.value && otp != u.otpCode.value ==>
            out == UsersOutcome(users, Failure(HttpError(400, "Invalid OTP"))))
      && (now <= u.otpExpiresAt.value && otp == u.otpCode.value ==>
            && out.response == Success(VerifiedMessage)
            && out.users == users[i := u.(isVerified := true, otpCode := None, otpExpiresAt := None)])
  {
    var i := UserIndexByEmail(users, email);
    FirstByEmailIsFirstById(users, email);
    assert MarkVerified(users, users[i].id) == users[i := VerifiedDoc(users[i])];
  }

  /** Nothing in the account routes takes a verified account back to unverified. */
  lemma {:induction false} VerificationIsPermanent(users: seq<UserDoc>, email: string, user: UserCreate,
                                                   draw: int, salt: nat, now: int, newId: ObjectId,
                                                   mailDelivered: bool, payload: OTPVerify)
    requires OtpMin <= draw <= OtpMax
    requires StateOf(users, email) == Verified
    ensures StateOf(RegisterStep(users, user, draw, salt, now, newId, mailDelivered).users, email) == Verified
    ensures StateOf(VerifyOtpStep(users, payload, now).users, email) == Verified
  {
    RegisterKeepsVerified(users, email, user, draw, salt, now, newId, mailDelivered);
    VerifyKeepsVerified(users, email, payload, now);
  }

  /** Register never takes a verified account back. */
  lemma RegisterKeepsVerified(users: seq<UserDoc>, email: string, user: UserCreate, draw: int, salt: nat,
                              now: int, newId: ObjectId, mailDelivered: bool)
    requires OtpMin <= draw <= OtpMax
    requires StateOf(users, email) == Verified
    ensures StateOf(RegisterStep(users, user, draw, salt, now, newId, mailDelivered).users, email) == Verified
  {
    var reg := RegisterStep(users, user, draw, salt, now, newId, mailDelivered);
    if reg.users != users {
      assert reg.users == users + [reg.users[|users|]];
      AppendKeepsLookup(users, reg.users[|users|], email);
    }
  }

  /** Verify-otp never takes a verified account back. */
  lemma VerifyKeepsVerified(users: seq<UserDoc>, email: string, payload: OTPVerify, now: int)
    requires StateOf(users, email) == Verified
    ensures StateOf(VerifyOtpStep(users, payload, now).users, email) == Verified
  {
    var ver := VerifyOtpStep(users, payload, now);
    if ver.users != users {
      var u := FindUserByEmail(users, NormalizeEmail(payload.email)).value;
      assert ver.users == MarkVerified(users, u.id);
      VerifiedStaysVerifiedAt(users, u.id, email);
    }
  }

  /** A pending account whose code has expired is stuck: verify-otp says "OTP expired, please register
      again", register refuses the address as taken, and login refuses it as unverified. */
  lemma StuckAfterExpiry(users: seq<UserDoc>, email: string, password: string, otp: string, now: int,
                         draw: int, salt: nat, newId: ObjectId, mailDelivered: bool, config: Config)
    requires WellFormedUsers(users)
    requires OtpMin <= draw <= OtpMax
    requires IsNormalEmail(email) && email != "" && password != ""
    requires StateOf(users, email) == PendingVerification
    requires now > FindUserByEmail(users, email).value.otpExpiresAt.value
    ensures VerifyOtpStep(users, OTPVerify(email, otp), now)
            == UsersOutcome(users, Failure(HttpError(400, "OTP expired, please register again")))
    ensures RegisterStep(users, UserCreate(email, password), draw, salt, now, newId, mailDelivered)
            == RegisterOutcome(users, None, Failure(HttpError(400, "Email already registered")))
    ensures LoginForToken(users, LoginForm(Some(email), Some(password)), config, now)
            == Failure(HttpError(403, "Email not verified"))
  {
    NormalForm(email);
    VerifyPending(users, OTPVerify(email, otp), now);
    RegisterDuplicate(users, UserCreate(email, password), draw, salt, now, newId, mailDelivered);
    LoginOutcomes(users, email, password, config, now);
  }

  // ---- token (login) ------------------------------------------------------------------------------

  /** The request body of the token route: `form_data.get("email")` and `form_data.get("password")`.
      Non-string JSON values are not modelled. */
  datatype LoginForm = LoginForm(email: Option<string>, password: Option<string>)

  /** `login_for_token`: a missing or empty field is 400; the account is looked up by the lower-cased
      (not stripped) address; no account or a wrong password is 401 "Incorrect credentials"; an
      unverified account is 403, checked before the password; otherwise a bearer token whose `sub` is the
      account's `_id`. A password that passlib refuses to verify, and an unset SECRET_KEY, make the
      handler raise, which answers 500. */
  function LoginForToken(users: seq<UserDoc>, form: LoginForm, config: Config, now: int)
    : (r: Result<Token, HttpError>)
    ensures r.Success? ==>
      && form.email.Some? && form.password.Some?
      && FindUserByEmail(users, Lower(form.email.value)).Some?
      && var u := FindUserByEmail(users, Lower(form.email.value)).value;
      && u.isVerified
      && VerifyPassword(form.password, u.hashedPassword) == Success(true)
      && r.value.tokenType == "bearer"
      && r.value.accessToken.Compact?
      && "sub" in r.value.accessToken.jwt.claims && "iat" in r.value.accessToken.jwt.claims
      && r.value.accessToken.jwt.claims["sub"] == Text(u.id)
      && r.value.accessToken.jwt.claims["iat"] == Instant(now)
    ensures form.email.None? || form.email.value == "" || form.password.None? || form.password.value == "" ==>
      r == Failure(HttpError(400, "Email and password required"))
    ensures form.email.Some? && form.email.value != "" && form.password.Some? && form.password.value != ""
            && FindUserByEmail(users, Lower(form.email.value)).Some?
            && FindUserByEmail(users, Lower(form.email.value)).value.isVerified
            && VerifyPassword(form.password, FindUserByEmail(users, Lower(form.email.value)).value.hashedPassword)
               == Success(true) ==>
      r == if config.secretKey.Some? then Success(Token(CreateAccessToken(
             map["sub" := Text(FindUserByEmail(users, Lower(form.email.value)).value.id)], None, config, now).value,
             "bearer"))
           else Failure(InternalServerError)
    ensures form.email.Some? && form.email.value != "" && form.password.Some? && form.password.value != ""
            && FindUserByEmail(users, Lower(form.email.value)).Some?
            && FindUserByEmail(users, Lower(form.email.value)).value.isVerified
            && |form.password.value| > MaxPasswordSize ==>
      r == Failure(InternalServerError)
  {
    if form.email.None? || form.email.value == "" || form.password.None? || form.password.value == "" then
      Failure(HttpError(400, "Email and password required"))
    else
      match FindUserByEmail(users, Lower(form.email.value))
      case None => Failure(HttpError(401, "Incorrect credentials"))
      case Some(u) =>
        if !u.isVerified then Failure(HttpError(403, "Email not verified"))
        else
          match VerifyPassword(form.password, u.hashedPassword)
          case Failure(_) => Failure(InternalServerError)
          case Success(false) => Failure(HttpError(401, "Incorrect credentials"))
          case Success(true) =>
            match CreateAccessToken(map["sub" := Text(u.id)], None, config, now)
            case Failure(_) => Failure(InternalServerError)
            case Success(t) => Success(Token(t, "bearer"))
  }

  /** An unverified account is refused with 403 whether or not the password is right; an unknown address
      and a wrong password on a verified account get the same 401; a password over passlib's size bound
      on a verified account makes verify raise, which answers 500. */
  lemma LoginOutcomes(users: seq<UserDoc>, email: string, password: string, config: Config, now: int)
    requires email != "" && password != ""
    ensures StateOf(users, Lower(email)) == PendingVerification ==>
      LoginForToken(users, LoginForm(Some(email), Some(password)), config, now)
      == Failure(HttpError(403, "Email not verified"))
    ensures StateOf(users, Lower(email)) == Unregistered ==>
      LoginForToken(users, LoginForm(Some(email), Some(password)), config, now)
      == Failure(HttpError(401, "Incorrect credentials"))
    ensures StateOf(users, Lower(email)) == Verified
            && VerifyPassword(Some(password), FindUserByEmail(users, Lower(email)).value.hashedPassword)
               == Success(false) ==>
      LoginForToken(users, LoginForm(Some(email), Some(password)), config, now)
      == Failure(HttpError(401, "Incorrect credentials"))
    ensures StateOf(users, Lower(email)) == Verified && |password| > MaxPasswordSize ==>
      LoginForToken(users, LoginForm(Some(email), Some(password)), config, now) == Failure(InternalServerError)
  {
  }

  /** Login does not strip the address: with whitespace before or after it never finds a stored account. */
  lemma LoginDoesNotStrip(users: seq<UserDoc>, email: string, password: string, config: Config, now: int)
    requires WellFormedUsers(users)
    requires email != "" && (IsSpace(email[0]) || IsSpace(email[|email| - 1])) && password != ""
    ensures LoginForToken(users, LoginForm(Some(email), Some(password)), config, now)
            == Failure(HttpError(401, "Incorrect credentials"))
  {
    var key := Lower(email);
    assert IsSpace(key[0]) || IsSpace(key[|key| - 1]) by {
      if IsSpace(email[0]) {
        assert key[0] == email[0];
      } else {
        assert key[|key| - 1] == email[|email| - 1];
      }
    }
    forall i | 0 <= i < |users|
      ensures users[i].email != key
    {
      assert WellFormedUser(users[i]);
      assert IsTrimmed(users[i].email);
    }
  }

  /** The whole flow: registering a fresh address, verifying within ten minutes with the code that was
      mailed, and logging in yields a token that get_current_user resolves, while it is unexpired, to the
      registered account's `_id` and normalised address. */
  lemma {:induction false} RegisterVerifyLogin(
    users: seq<UserDoc>, email: string, password: string, draw: int, salt: nat, newId: ObjectId,
    registeredAt: int, verifiedAt: int, loggedInAt: int, usedAt: int, config: Config)
    requires WellFormedUsers(users)
    requires OtpMin <= draw <= OtpMax
    requires IsTrimmed(email) && email != ""
    requires password != "" && Utf8Length(password) <= MaxPasswordBytes
    requires StateOf(users, NormalizeEmail(email)) == Unregistered
    requires FindUserById(users, newId).None?
    requires verifiedAt <= registeredAt + OtpLifetime
    requires config.secretKey.Some?
    requires usedAt < loggedInAt + 60 * config.accessTokenExpireMinutes
    ensures var reg := RegisterStep(users, UserCreate(email, password), draw, salt, registeredAt, newId, true);
      && reg.response == Success(RegisteredMessage)
      && reg.mail.Some?
      && var ver := VerifyOtpStep(reg.users, OTPVerify(email, reg.mail.value.code), verifiedAt);
      && ver.response == Success(VerifiedMessage)
      && var login := LoginForToken(ver.users, LoginForm(Some(email), Some(password)), config, loggedInAt);
      && login.Success?
      && GetCurrentUser(Some(login.value.accessToken), config, usedAt, ver.users)
         == Success(UserInDB(newId, NormalizeEmail(email)))
  {
    NormalizeTrimmed(email);
    RegisterFromUnregistered(users, UserCreate(email, password), draw, salt, registeredAt, newId, true);
    var reg := RegisterStep(users, UserCreate(email, password), draw, salt, registeredAt, newId, true);
    var d := reg.users[|users|];
    assert reg.users == users + [d];
    AppendedIsFirstByEmail(users, d);
    AppendedIsFirstById(users, d);
    OtpCodeIsTrimmed(d.otpCode.value);
    var verified := users + [VerifiedDoc(d)];
    var ver := VerifyOtpStep(reg.users, OTPVerify(email, reg.mail.value.code), verifiedAt);
    assert ver == VerifyOtpAt(users + [d], d.email, d.otpCode.value, verifiedAt);
    VerifyAppended(users, d, d.otpCode.value, verifiedAt);
    AppendedIsFirstByEmail(users, VerifiedDoc(d));
    AppendedIsFirstById(users, VerifiedDoc(d));
    HashThenVerify(Some(password), Some(password), salt);
    LoginThenResolve(verified, email, password, config, loggedInAt, usedAt);
  }

  /** A verified account found by the lower-cased address, with a password that verifies, logs in, and
      the token it is given resolves to that account until the token expires. */
  lemma LoginThenResolve(users: seq<UserDoc>, email: string, password: string, config: Config,
                         loggedInAt: int, usedAt: int)
    requires email != "" && password != ""
    requires UserIndexByEmail(users, Lower(email)) < |users|
    requires var u := users[UserIndexByEmail(users, Lower(email))];
      && u.isVerified && VerifyPassword(Some(password), u.hashedPassword) == Success(true)
      && UserIndexById(users, u.id) == UserIndexByEmail(users, Lower(email))
    requires config.secretKey.Some?
    requires usedAt < loggedInAt + 60 * config.accessTokenExpireMinutes
    ensures var u := users[UserIndexByEmail(users, Lower(email))];
      var login := LoginForToken(users, LoginForm(Some(email), Some(password)), config, loggedInAt);
      && login.Success?
      && GetCurrentUser(Some(login.value.accessToken), config, usedAt, users) == Success(UserInDB(u.id, u.email))
  {
    var i := UserIndexByEmail(users, Lower(email));
    LoginIssues(users, email, password, config, loggedInAt);
    IssuedTokenResolves(users, i, config, loggedInAt, usedAt);
  }

  /** Login with a verified account found by the lower-cased address and a password that verifies
      answers the bearer token create_access_token makes for its `_id`. */
  lemma LoginIssues(users: seq<UserDoc>, email: string, password: string, config: Config, now: int)
    requires email != "" && password != ""
    requires UserIndexByEmail(users, Lower(email)) < |users|
    requires var u := users[UserIndexByEmail(users, Lower(email))];
      u.isVerified && VerifyPassword(Some(password), u.hashedPassword) == Success(true)
    requires config.secretKey.Some?
    ensures var u := users[UserIndexByEmail(users, Lower(email))];
      LoginForToken(users, LoginForm(Some(email), Some(password)), config, now)
      == Success(Token(CreateAccessToken(map["sub" := Text(u.id)], None, config, now).value, "bearer"))
  {
  }

  /** A token issued for the first account with its `_id` resolves to that account until it expires. */
  lemma IssuedTokenResolves(users: seq<UserDoc>, i: nat, config: Config, issuedAt: int, usedAt: int)
    requires i < |users| && UserIndexById(users, users[i].id) == i
    requires config.secretKey.Some?
    requires usedAt < issuedAt + 60 * config.accessTokenExpireMinutes
    ensures var token := CreateAccessToken(map["sub" := Text(users[i].id)], None, config, issuedAt).value;
      GetCurrentUser(Some(token), config, usedAt, users) == Success(UserInDB(users[i].id, users[i].email))
  {
    var token := CreateAccessToken(map["sub" := Text(users[i].id)], None, config, issuedAt).value;
    IssuedTokenDecodes(map["sub" := Text(users[i].id)], None, config, issuedAt, usedAt);
    SubjectResolves(token, config, usedAt, users, i);
  }
}
