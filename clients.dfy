/**
 * The `clients` table: one record per registered email, the OTP sub-state of
 * the email verification, the onboarding step, and the replies of the
 * onboarding and login endpoints with their HTTP status.
 */
module Clients {
  import opened Wrappers
  import opened Text
  import opened Decimal
  import opened Phone

  /** `otpExpiresMinutes` = 10, in seconds. */
  const OtpLifetimeSeconds := 10 * 60
  const ResendCooldownSeconds := 10
  const MaxResends := 5
  /** Where `saveProfile` moves an uploaded profile image. */
  const UploadDir := "uploads/clients/"

  /**
   * What `Hash::make` keeps of a PIN. Only the property the controller relies
   * on is modelled: `Hash::check(p, Hash::make(q))` holds exactly when p == q.
   */
  datatype PinHash = PinHash(secret: string)

  function HashMake(pin: string): PinHash { PinHash(pin) }

  /** `Hash::check`; a null stored hash never matches. */
  predicate HashCheck(pin: string, stored: Option<PinHash>) {
    stored.Some? && stored.value.secret == pin
  }

  datatype Client = Client(
    id: nat,
    email: string,
    phone: Option<string>,
    username: Option<string>,
    profileImage: Option<string>,
    pin: Option<PinHash>,
    code: Option<string>,           // email_verification_code
    expiresAt: Option<Time>,        // email_verification_expires_at
    lastSentAt: Option<Time>,       // email_verification_last_sent_at
    resendCount: nat,               // email_verification_resend_count
    emailVerifiedAt: Option<Time>,
    verified: bool,
    accountCompleted: bool,
    step: nat)                      // onboarding_step

  /** What every record satisfies between requests. */
  predicate RecordInvariant(c: Client) {
    && 1 <= c.step <= 4
    && (c.verified <==> c.emailVerifiedAt.Some?)
    && (c.step == 1 <==> !c.verified)
    && c.resendCount <= MaxResends
    && (c.code.Some? ==> IsOtpCode(c.code.value))
    && c.lastSentAt.Some?
    && (c.phone.Some? ==> IsE164(c.phone.value))
    && (c.accountCompleted <==> c.phone.Some?)
    && (c.accountCompleted <==> c.pin.Some?)
    && (c.accountCompleted ==> c.verified && 3 <= c.step)
  }

  /**
   * Ids are assigned in insertion order from 1, and email, phone and username
   * are unique columns.
   */
  predicate WellFormed(cs: seq<Client>) {
    && (forall i :: 0 <= i < |cs| ==> cs[i].id == i + 1 && RecordInvariant(cs[i]))
    && (forall i, j :: 0 <= i < j < |cs| ==> cs[i].email != cs[j].email)
    && (forall i, j :: 0 <= i < j < |cs| && cs[i].phone.Some? ==> cs[i].phone != cs[j].phone)
    && (forall i, j :: 0 <= i < j < |cs| && cs[i].username.Some? ==> cs[i].username != cs[j].username)
  }

  /** `Client::where('email', $email)->first()`. */
  function FindByEmail(cs: seq<Client>, email: string): (r: Option<nat>)
    ensures r.Some? ==> r.value < |cs| && cs[r.value].email == email
    ensures r.None? <==> forall k :: 0 <= k < |cs| ==> cs[k].email != email
  {
    FirstWhere(cs, (c: Client) => c.email == email)
  }

  /** `Client::where('phone', $phone)->first()`; `->exists()` is `.Some?`. */
  function FindByPhone(cs: seq<Client>, phone: string): (r: Option<nat>)
    ensures r.Some? ==> r.value < |cs| && cs[r.value].phone == Some(phone)
    ensures r.None? <==> forall k :: 0 <= k < |cs| ==> cs[k].phone != Some(phone)
  {
    FirstWhere(cs, (c: Client) => c.phone == Some(phone))
  }

  /** In a well-formed table a stored email finds its own record. */
  lemma FindByEmailExact(cs: seq<Client>, i: nat)
    requires WellFormed(cs) && i < |cs|
    ensures FindByEmail(cs, cs[i].email) == Some(i)
  {
  }

  /** In a well-formed table a stored phone finds its own record. */
  lemma FindByPhoneExact(cs: seq<Client>, i: nat)
    requires WellFormed(cs) && i < |cs| && cs[i].phone.Some?
    ensures FindByPhone(cs, cs[i].phone.value) == Some(i)
  {
  }

  /**
   * Replacing one record keeps the table well formed when the new record keeps
   * its id and email, satisfies the record invariant, and takes no phone or
   * username another client holds.
   */
  lemma UpdateKeepsWellFormed(cs: seq<Client>, i: nat, c: Client)
    requires WellFormed(cs) && i < |cs|
    requires c.id == cs[i].id && c.email == cs[i].email && RecordInvariant(c)
    requires c.phone.Some? ==> forall k :: 0 <= k < |cs| && k != i ==> cs[k].phone != c.phone
    requires c.username.Some? ==> forall k :: 0 <= k < |cs| && k != i ==> cs[k].username != c.username
    ensures WellFormed(cs[i := c])
  {
    var t := cs[i := c];
    forall j, k | 0 <= j < k < |t| && t[j].phone.Some?
      ensures t[j].phone != t[k].phone
    {
      if j != i && k != i {
        assert t[j] == cs[j] && t[k] == cs[k];
      }
    }
    forall j, k | 0 <= j < k < |t| && t[j].username.Some?
      ensures t[j].username != t[k].username
    {
      if j != i && k != i {
        assert t[j] == cs[j] && t[k] == cs[k];
      }
    }
  }

  /** Lookups by phone do not see an update that leaves every phone as it was. */
  lemma FindByPhoneUnchanged(cs: seq<Client>, i: nat, c: Client, phone: string)
    requires i < |cs| && c.phone == cs[i].phone
    ensures FindByPhone(cs[i := c], phone) == FindByPhone(cs, phone)
  {
    var t := cs[i := c];
    assert forall k :: 0 <= k < |cs| ==> t[k].phone == cs[k].phone;
    var a, b := FindByPhone(t, phone), FindByPhone(cs, phone);
    if a.Some? && b.Some? {
      assert !(a.value < b.value) && !(b.value < a.value);
    }
  }

  /** Seconds between two instants, whichever comes first. */
  function Elapsed(now: Time, earlier: Time): (d: nat)
    ensures now >= earlier ==> now == earlier + d
    ensures now < earlier ==> earlier == now + d
  {
    if now >= earlier then now - earlier else earlier - now
  }

  // Request validation rules, as far as they constrain the modelled fields.

  /** `required` and `max:120` on an email field (its `email` format rule is not modelled). */
  predicate EmailFieldOk(email: string) { Present(email) && |email| <= 120 }

  /** `digits:6`, used for the verification code and the PIN. */
  predicate IsSixDigits(s: string) { |s| == 6 && AllDigits(s) }

  /** `nullable`, `min:3`, `max:40`, `unique:clients,username` (the caller's own username included). */
  predicate UsernameFieldOk(cs: seq<Client>, username: Option<string>) {
    username.None? ||
    (3 <= |username.value| <= 40 && forall k :: 0 <= k < |cs| ==> cs[k].username != username)
  }

  /** The replies of the onboarding and login endpoints. */
  datatype AuthReply =
    | CodeSent                         // startEmail
    | MailFailed
    | Invalid                          // a validation rule failed
    | NotFound
    | AlreadyVerified
    | NoCode
    | CodeExpired
    | CodeMismatch
    | EmailVerified
    | TooManyResends
    | TooSoon(retryAfter: nat)
    | CodeResent
    | EmailNotVerified
    | ProfileSaved
    | ProfileStepRequired
    | InvalidPhoneFormat
    | PhoneTaken
    | PhonePinSaved
    | InvalidCredentials               // "Invalid phone or PIN."
    | RegistrationIncomplete(step: nat)
    | LoggedIn(id: nat)                // a bearer token is issued for client `id`
  {
    function Status(): int {
      match this
      case CodeSent => 201
      case MailFailed => 500
      case Invalid => 422
      case NotFound => 404
      case AlreadyVerified => 200
      case NoCode => 400
      case CodeExpired => 422
      case CodeMismatch => 422
      case EmailVerified => 200
      case TooManyResends => 429
      case TooSoon(_) => 429
      case CodeResent => 200
      case EmailNotVerified => 403
      case ProfileSaved => 200
      case ProfileStepRequired => 403
      case InvalidPhoneFormat => 422
      case PhoneTaken => 422
      case PhonePinSaved => 200
      case InvalidCredentials => 422
      case RegistrationIncomplete(_) => 403
      case LoggedIn(_) => 200
    }
  }
}
