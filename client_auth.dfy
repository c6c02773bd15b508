/**
 * The onboarding endpoints of `ClientAuthController` over the clients table:
 * register an email and send a code, verify it, resend it, save the profile,
 * save phone and PIN, and log in with phone and PIN. Each handler runs as one
 * atomic step; the clock, the generated code and the outcome of the mail send
 * are parameters.
 */
module ClientAuth {
  import opened Wrappers
  import opened Text
  import opened Decimal
  import opened Phone
  import opened Clients

  /**
   * `loginWithPin`: the phone is looked up exactly as typed. An unknown phone
   * and a wrong PIN give the same reply; an unfinished registration is
   * reported before the PIN is checked.
   */
  function LoginWithPin(cs: seq<Client>, phone: string, pin: string): (r: AuthReply)
    ensures r.Invalid? <==> !(Present(phone) && 7 <= |phone| <= 20 && IsSixDigits(pin))
    ensures r.Invalid? || r.InvalidCredentials? || r.RegistrationIncomplete? || r.LoggedIn?
    ensures r.LoggedIn? ==>
      exists i :: 0 <= i < |cs| && cs[i].phone == Some(phone) && cs[i].id == r.id
        && cs[i].accountCompleted && cs[i].step == 4 && HashCheck(pin, cs[i].pin)
    ensures !r.Invalid? && FindByPhone(cs, phone).None? ==> r == InvalidCredentials
    ensures !r.Invalid? && FindByPhone(cs, phone).Some? ==>
      var c := cs[FindByPhone(cs, phone).value];
      && (r.RegistrationIncomplete? <==> !(c.accountCompleted && c.step == 4))
      && (r.RegistrationIncomplete? ==> r.step == c.step)
      && (r == InvalidCredentials <==> c.accountCompleted && c.step == 4 && !HashCheck(pin, c.pin))
  {
    if !(Present(phone) && 7 <= |phone| <= 20 && IsSixDigits(pin)) then Invalid
    else match FindByPhone(cs, phone)
      case None => InvalidCredentials
      case Some(i) =>
        var c := cs[i];
        if !c.accountCompleted || c.step != 4 then RegistrationIncomplete(c.step)
        else if !HashCheck(pin, c.pin) then InvalidCredentials
        else LoggedIn(c.id)
  }

  /**
   * The reply `resendEmail` gives a client it found: the resend cap is
   * checked before the cooldown, and a refused early resend says how many
   * seconds of the cooldown are left.
   */
  function ResendReply(c: Client, now: Time, mailOk: bool): (r: AuthReply)
    ensures r == TooManyResends <==> c.resendCount >= MaxResends
    ensures r.TooSoon? <==>
      c.resendCount < MaxResends && c.lastSentAt.Some? && Elapsed(now, c.lastSentAt.value) < ResendCooldownSeconds
    ensures r.TooSoon? ==>
      1 <= r.retryAfter <= ResendCooldownSeconds && r.retryAfter == ResendCooldownSeconds - Elapsed(now, c.lastSentAt.value)
    ensures r == CodeResent <==> !(r == TooManyResends || r.TooSoon?) && mailOk
    ensures r == TooManyResends || r.TooSoon? || r == CodeResent || r == MailFailed
  {
    if c.resendCount >= MaxResends then TooManyResends
    else if c.lastSentAt.Some? && Elapsed(now, c.lastSentAt.value) < ResendCooldownSeconds then
      TooSoon(ResendCooldownSeconds - Elapsed(now, c.lastSentAt.value))
    else if mailOk then CodeResent
    else MailFailed
  }

  /** No client other than the one at `i` holds `full`. */
  predicate PhoneFreeFor(cs: seq<Client>, full: string, i: nat) {
    forall k :: 0 <= k < |cs| && k != i ==> cs[k].phone != Some(full)
  }

  /**
   * Storing a fresh E.164 number and a PIN on a verified client past the
   * profile step keeps the table well formed, and that phone and PIN then
   * log the client in.
   */
  lemma PhonePinCompletesAccount(cs: seq<Client>, i: nat, full: string, pin: string)
    requires WellFormed(cs) && i < |cs|
    requires cs[i].emailVerifiedAt.Some? && cs[i].step >= 3
    requires IsE164(full) && PhoneFreeFor(cs, full, i)
    ensures var cs2 := cs[i := cs[i].(phone := Some(full), pin := Some(HashMake(pin)), accountCompleted := true, step := 4)];
            && WellFormed(cs2)
            && (IsSixDigits(pin) ==> LoginWithPin(cs2, full, pin) == LoggedIn(cs[i].id))
  {
    var updated := cs[i].(phone := Some(full), pin := Some(HashMake(pin)), accountCompleted := true, step := 4);
    assert RecordInvariant(updated);
    UpdateKeepsWellFormed(cs, i, updated);
    var cs2 := cs[i := updated];
    FindByPhoneExact(cs2, i);
    assert 7 <= |full| <= 20;
    assert Present(full) by {
      assert full[0] == '+' && !IsTrimmed(full[0]);
    }
  }

  /** The row after a resend: a new code, a new expiry, the send time and one more resend. */
  function WithNewCode(c: Client, generated: nat, now: Time): (r: Client)
    requires OtpMin <= generated <= OtpMax
    ensures r.code == Some(OtpCode(generated)) && IsOtpCode(r.code.value)
    ensures r.expiresAt == Some(now + OtpLifetimeSeconds) && r.lastSentAt == Some(now)
    ensures r.resendCount == c.resendCount + 1
    ensures r.(code := c.code, expiresAt := c.expiresAt, lastSentAt := c.lastSentAt, resendCount := c.resendCount) == c
  {
    c.(code := Some(OtpCode(generated)), expiresAt := Some(now + OtpLifetimeSeconds),
       lastSentAt := Some(now), resendCount := c.resendCount + 1)
  }

  /** Issuing a new code to a client below the resend cap keeps the table well formed. */
  lemma NewCodeKeepsWellFormed(cs: seq<Client>, i: nat, generated: nat, now: Time)
    requires WellFormed(cs) && i < |cs| && cs[i].resendCount < MaxResends
    requires OtpMin <= generated <= OtpMax
    ensures WellFormed(cs[i := WithNewCode(cs[i], generated, now)])
  {
    var updated := WithNewCode(cs[i], generated, now);
    assert RecordInvariant(updated);
    UpdateKeepsWellFormed(cs, i, updated);
  }

  /** The row after `saveProfile`: new username and image when given, and step 3. */
  function WithProfile(c: Client, username: Option<string>, upload: Option<string>): (r: Client)
    ensures r.step == 3
    ensures r.username == (if username.Some? then username else c.username)
    ensures upload.Some? ==> r.profileImage == Some(UploadDir + upload.value)
    ensures upload.None? ==> r.profileImage == c.profileImage
    ensures r.(username := c.username, profileImage := c.profileImage, step := c.step) == c
  {
    c.(username := if username.Some? then username else c.username,
       profileImage := if upload.Some? then Some(UploadDir + upload.value) else c.profileImage,
       step := 3)
  }

  /**
   * Saving the profile of a verified client keeps the table well formed, and
   * the only login reply it can change is the one that now asks for step 3.
   */
  lemma ProfileKeepsWellFormed(cs: seq<Client>, i: nat, username: Option<string>, upload: Option<string>)
    requires WellFormed(cs) && i < |cs| && cs[i].emailVerifiedAt.Some?
    requires UsernameFieldOk(cs, username)
    ensures var cs2 := cs[i := WithProfile(cs[i], username, upload)];
            && WellFormed(cs2)
            && forall p, pin :: LoginWithPin(cs2, p, pin) != LoginWithPin(cs, p, pin) ==>
                 LoginWithPin(cs2, p, pin) == RegistrationIncomplete(3)
  {
    var updated := WithProfile(cs[i], username, upload);
    assert RecordInvariant(updated);
    UpdateKeepsWellFormed(cs, i, updated);
    forall p | true
      ensures FindByPhone(cs[i := updated], p) == FindByPhone(cs, p)
    {
      FindByPhoneUnchanged(cs, i, updated, p);
    }
  }

  /**
   * Saving the profile of a completed account sets it back to step 3 while
   * its number stays stored: a login with that number now asks for step 3,
   * and the uniqueness check of `savePhonePin` finds the number on the
   * account itself, so saving the same number again is refused.
   */
  lemma ResavedProfileLocksLogin(cs: seq<Client>, i: nat, username: Option<string>, upload: Option<string>, pin: string)
    requires WellFormed(cs) && i < |cs| && cs[i].accountCompleted
    requires UsernameFieldOk(cs, username) && IsSixDigits(pin)
    ensures var cs2 := cs[i := WithProfile(cs[i], username, upload)];
            && LoginWithPin(cs2, cs[i].phone.value, pin) == RegistrationIncomplete(3)
            && FindByPhone(cs2, cs[i].phone.value) == Some(i)
  {
    var full := cs[i].phone.value;
    ProfileKeepsWellFormed(cs, i, username, upload);
    var cs2 := cs[i := WithProfile(cs[i], username, upload)];
    FindByPhoneExact(cs2, i);
    assert 7 <= |full| <= 20;
    assert Present(full) by {
      assert full[0] == '+' && !IsTrimmed(full[0]);
    }
  }

  /**
   * With a uniqueness check that ignores the caller's own row, a completed
   * account that saved its profile again can store its own number again,
   * and logging in with it and the new PIN then succeeds.
   */
  lemma ResavedOwnNumberRestoresLogin(cs: seq<Client>, i: nat, username: Option<string>, upload: Option<string>, pin: string)
    requires WellFormed(cs) && i < |cs| && cs[i].accountCompleted
    requires UsernameFieldOk(cs, username) && IsSixDigits(pin)
    ensures var cs2 := cs[i := WithProfile(cs[i], username, upload)];
            var full := cs[i].phone.value;
            && PhoneFreeFor(cs2, full, i)
            && var cs3 := cs2[i := cs2[i].(phone := Some(full), pin := Some(HashMake(pin)), accountCompleted := true, step := 4)];
               WellFormed(cs3) && LoginWithPin(cs3, full, pin) == LoggedIn(cs[i].id)
  {
    var full := cs[i].phone.value;
    ProfileKeepsWellFormed(cs, i, username, upload);
    var cs2 := cs[i := WithProfile(cs[i], username, upload)];
    assert PhoneFreeFor(cs2, full, i) by {
      forall k | 0 <= k < |cs2| && k != i ensures cs2[k].phone != Some(full) {
        assert cs2[k] == cs[k];
        if k < i { assert cs[k].phone != cs[i].phone; } else { assert cs[i].phone != cs[k].phone; }
      }
    }
    PhonePinCompletesAccount(cs2, i, full, pin);
  }

  /** The clients table as the onboarding endpoints update it. */
  class ClientStore {
    var clients: seq<Client>

    ghost predicate Valid()
      reads this
    {
      WellFormed(clients)
    }

    constructor ()
      ensures Valid() && clients == []
    {
      clients := [];
    }

    /**
     * `startEmail`: creates the client at step 1 with a fresh code, then sends
     * it. The record is kept when the mail fails.
     */
    method StartEmail(email: string, now: Time, generated: nat, mailOk: bool) returns (r: AuthReply)
      requires Valid()
      requires OtpMin <= generated <= OtpMax
      modifies this
      ensures Valid()
      ensures r == Invalid <==> !(EmailFieldOk(email) && FindByEmail(old(clients), email).None?)
      ensures r == Invalid ==> clients == old(clients)
      ensures r != Invalid ==> r == (if mailOk then CodeSent else MailFailed)
      ensures r != Invalid ==>
        && |clients| == |old(clients)| + 1
        && clients[..|old(clients)|] == old(clients)
        && var c := clients[|old(clients)|];
        && c.id == |clients| && c.email == email
        && c.step == 1 && !c.verified && !c.accountCompleted && c.resendCount == 0
        && c.code == Some(OtpCode(generated)) && OtpMin <= Value(c.code.value)
        && c.expiresAt == Some(now + OtpLifetimeSeconds) && c.lastSentAt == Some(now)
        && c.emailVerifiedAt.None? && c.phone.None? && c.username.None?
        && c.profileImage.None? && c.pin.None?
    {
      if !EmailFieldOk(email) || FindByEmail(clients, email).Some? {
        return Invalid;
      }
      var c := Client(|clients| + 1, email, None, None, None, None,
                      Some(OtpCode(generated)), Some(now + OtpLifetimeSeconds), Some(now), 0,
                      None, false, false, 1);
      clients := clients + [c];
      if !mailOk {
        return MailFailed;
      }
      return CodeSent;
    }

    /**
     * `verifyEmail`: unknown email, already verified (whatever the code), no
     * code, expired (even when the code matches) and wrong code are checked
     * in this order.
     */
    method VerifyEmail(email: string, code: string, now: Time) returns (r: AuthReply)
      requires Valid()
      modifies this
      ensures Valid()
      ensures r != EmailVerified ==> clients == old(clients)
      ensures !(EmailFieldOk(email) && IsSixDigits(code)) ==> r == Invalid
      ensures EmailFieldOk(email) && IsSixDigits(code) ==>
        match FindByEmail(old(clients), email)
        case None => r == NotFound
        case Some(i) =>
          var c := old(clients)[i];
          && r == (if c.emailVerifiedAt.Some? then AlreadyVerified
                   else if !Truthy(c.code) then NoCode
                   else if c.expiresAt.Some? && now > c.expiresAt.value then CodeExpired
                   else if c.code.value != code then CodeMismatch
                   else EmailVerified)
          && (r == EmailVerified ==>
                clients == old(clients)[i := c.(verified := true, step := 2, emailVerifiedAt := Some(now),
                                                code := None, expiresAt := None)])
    {
      if !(EmailFieldOk(email) && IsSixDigits(code)) {
        return Invalid;
      }
      var found := FindByEmail(clients, email);
      if found.None? {
        return NotFound;
      }
      var i := found.value;
      var c := clients[i];
      if c.emailVerifiedAt.Some? {
        return AlreadyVerified;
      }
      if !Truthy(c.code) {
        return NoCode;
      }
      if c.expiresAt.Some? && now > c.expiresAt.value {
        return CodeExpired;
      }
      if c.code.value != code {
        return CodeMismatch;
      }
      clients := clients[i := c.(verified := true, step := 2, emailVerifiedAt := Some(now),
                                 code := None, expiresAt := None)];
      return EmailVerified;
    }

    /**
     * `resendEmail`: the resend cap is checked before the cooldown; a new code
     * is written, and the counter raised, before the mail is sent, so a failed
     * send still uses up a resend.
     */
    method ResendEmail(email: string, now: Time, generated: nat, mailOk: bool) returns (r: AuthReply)
      requires Valid()
      requires OtpMin <= generated <= OtpMax
      modifies this
      ensures Valid()
      ensures !(r == CodeResent || r == MailFailed) ==> clients == old(clients)
      ensures !EmailFieldOk(email) ==> r == Invalid
      ensures EmailFieldOk(email) ==>
        match FindByEmail(old(clients), email)
        case None => r == NotFound
        case Some(i) =>
          var c := old(clients)[i];
          && r == ResendReply(c, now, mailOk)
          && (r == CodeResent || r == MailFailed ==>
                clients == old(clients)[i := WithNewCode(c, generated, now)])
    {
      if !EmailFieldOk(email) {
        return Invalid;
      }
      var found := FindByEmail(clients, email);
      if found.None? {
        return NotFound;
      }
      var i := found.value;
      r := ResendReply(clients[i], now, mailOk);
      if r == CodeResent || r == MailFailed {
        NewCodeKeepsWellFormed(clients, i, generated, now);
        clients := clients[i := WithNewCode(clients[i], generated, now)];
      }
    }

    /**
     * `saveProfile`: needs a verified email; keeps the old username when none
     * is given and the old image when none is uploaded (`upload` is the name
     * the uploaded file was stored under), and sets step 3 whatever the step
     * was, leaving `account_completed` as it is.
     */
    method SaveProfile(email: string, username: Option<string>, upload: Option<string>) returns (r: AuthReply)
      requires Valid()
      modifies this
      ensures Valid()
      ensures r != ProfileSaved ==> clients == old(clients)
      ensures !(Present(email) && UsernameFieldOk(old(clients), username)) ==> r == Invalid
      ensures Present(email) && UsernameFieldOk(old(clients), username) ==>
        match FindByEmail(old(clients), email)
        case None => r == NotFound
        case Some(i) =>
          var c := old(clients)[i];
          && r == (if c.emailVerifiedAt.None? then EmailNotVerified else ProfileSaved)
          && (r == ProfileSaved ==>
                clients == old(clients)[i := WithProfile(c, username, upload)])
      ensures r == ProfileSaved ==> forall p, pin :: LoginWithPin(clients, p, pin) != LoginWithPin(old(clients), p, pin) ==>
        LoginWithPin(clients, p, pin) == RegistrationIncomplete(3)
    {
      if !(Present(email) && UsernameFieldOk(clients, username)) {
        return Invalid;
      }
      var found := FindByEmail(clients, email);
      if found.None? {
        return NotFound;
      }
      var i := found.value;
      var c := clients[i];
      if c.emailVerifiedAt.None? {
        return EmailNotVerified;
      }
      ProfileKeepsWellFormed(clients, i, username, upload);
      clients := clients[i := WithProfile(c, username, upload)];
      return ProfileSaved;
    }

    /**
     * `savePhonePin`: needs a verified email and step 3 or more; the number is
     * built from the country code and the local digits, must have the E.164
     * shape, and must not be stored on any client, the caller included. On
     * success the account is complete at step 4 and a login with the same
     * phone and PIN succeeds.
     */
    method SavePhonePin(email: string, countryCode: string, phone: string, pin: string) returns (r: AuthReply)
      requires Valid()
      modifies this
      ensures Valid()
      ensures r != PhonePinSaved ==> clients == old(clients)
      ensures !(Present(email) && IsCountryCode(countryCode) && IsLocalNumber(phone) && IsSixDigits(pin)) ==> r == Invalid
      ensures Present(email) && IsCountryCode(countryCode) && IsLocalNumber(phone) && IsSixDigits(pin) ==>
        match FindByEmail(old(clients), email)
        case None => r == NotFound
        case Some(i) =>
          var c := old(clients)[i];
          var full := FullPhone(countryCode, phone);
          && r == (if c.emailVerifiedAt.None? then EmailNotVerified
                   else if c.step < 3 then ProfileStepRequired
                   else if !IsE164(full) then InvalidPhoneFormat
                   else if FindByPhone(old(clients), full).Some? then PhoneTaken
                   else PhonePinSaved)
          && (r == PhonePinSaved ==>
                && clients == old(clients)[i := c.(phone := Some(full), pin := Some(HashMake(pin)),
                                                   accountCompleted := true, step := 4)]
                && LoginWithPin(clients, full, pin) == LoggedIn(c.id))
    {
      if !(Present(email) && IsCountryCode(countryCode) && IsLocalNumber(phone) && IsSixDigits(pin)) {
        return Invalid;
      }
      var found := FindByEmail(clients, email);
      if found.None? {
        return NotFound;
      }
      var i := found.value;
      var c := clients[i];
      if c.emailVerifiedAt.None? {
        return EmailNotVerified;
      }
      if c.step < 3 {
        return ProfileStepRequired;
      }
      var full := FullPhone(countryCode, phone);
      if !IsE164(full) {
        return InvalidPhoneFormat;
      }
      if FindByPhone(clients, full).Some? {
        return PhoneTaken;
      }
      PhonePinCompletesAccount(clients, i, full, pin);
      clients := clients[i := c.(phone := Some(full), pin := Some(HashMake(pin)),
                                 accountCompleted := true, step := 4)];
      return PhonePinSaved;
    }
  }
}
