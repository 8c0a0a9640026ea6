/** The two password-reset endpoints of crm/user/views.py: issuing a code for
    a registered email, and consuming a code to set a new password. Each view
    is a function from the current state and the request's fields to the next
    state and the reply. */
module PasswordReset {
  import opened Results
  import opened Text
  import opened VerificationCodes

  /** Minimum length of the stripped new password. */
  const MinPasswordLength: nat := 8

  /** The users, keyed by their (unique) email, each with the secret
      `set_password` last stored, and the verification-code table. */
  datatype State = State(passwords: map<string, string>, codes: Store)

  /** The error replies of the two views. */
  datatype Failure =
    | EmailRequired            // "Email is required"
    | EmailNotRegistered       // "Email not registered"
    | InvalidEmailAddress      // "Please enter a valid email address"
    | GenerationFailed         // "Failed to generate verification code: ..."
    | UnhandledNameError       // an exception no handler catches
    | CodeAndPasswordRequired  // "Code and new_password are required"
    | PasswordTooShort         // "Password must be at least 8 characters long"
    | InvalidOrExpiredCode     // "Invalid or expired verification code"
    | UserAccountNotFound      // "User account not found"

  /** The HTTP status each failure is answered with. */
  function StatusCode(f: Failure): (code: nat)
    ensures 400 <= code < 600
    ensures code == 404 <==> f == EmailNotRegistered || f == UserAccountNotFound
    ensures code == 500 <==> f == GenerationFailed || f == UnhandledNameError
    ensures code == 400 <==> !(f == EmailNotRegistered || f == UserAccountNotFound || f == GenerationFailed || f == UnhandledNameError)
  {
    match f
    case EmailNotRegistered | UserAccountNotFound => 404
    case GenerationFailed | UnhandledNameError => 500
    case _ => 400
  }

  /** The next state and the reply: on success the issued code, or the email
      whose password was reset (a note of the model's own: the reset view
      replies with a message only). */
  datatype Step<T> = Step(state: State, reply: Result<T, Failure>)

  // ---------------------------------------------------------------------------
  // GenerateVerificationCodeView.post
  // ---------------------------------------------------------------------------

  /** The view as written. `validate_email` and `ValidationError` are never
      imported, so for every registered email the format check raises
      `NameError`, which no handler catches: no code is ever issued. */
  function IssueAsWritten(st: State, rawEmail: string): (r: Step<string>)
    ensures r.state == st && r.reply.Err?
    ensures IsBlank(rawEmail) ==> r.reply.error == EmailRequired
    ensures !IsBlank(rawEmail) && Strip(rawEmail) !in st.passwords ==> r.reply.error == EmailNotRegistered
    ensures !IsBlank(rawEmail) && Strip(rawEmail) in st.passwords ==> r.reply.error == UnhandledNameError
  {
    var email := Strip(rawEmail);
    if email == [] then Step(st, Err(EmailRequired))
    else if email !in st.passwords then Step(st, Err(EmailNotRegistered))
    else Step(st, Err(UnhandledNameError))
  }

  /** A registered user who asks for a reset code gets a server error instead. */
  lemma IssueAsWrittenFailsRegisteredUser()
    ensures var st := State(map["ann@example.com" := "old-secret"], []);
      IssueAsWritten(st, "ann@example.com").reply == Err(UnhandledNameError)
  {
    assert Strip("ann@example.com") == "ann@example.com" by {
      StripOfTrimmed("ann@example.com");
    }
  }

  /** The view with the format check it evidently intends: `emailWellFormed`
      is the verdict of the email validator, `n` the number `random.randint`
      drew and `now` the current instant. */
  function Issue(st: State, rawEmail: string, emailWellFormed: bool, n: nat, now: int): (r: Step<string>)
    requires LowestCode <= n <= HighestCode
    ensures r.state.passwords == st.passwords
    ensures OnlyMarksUsed(st.codes, r.state.codes)
    ensures IsBlank(rawEmail) ==> r == Step(st, Err(EmailRequired))
    ensures !IsBlank(rawEmail) && Strip(rawEmail) !in st.passwords ==> r == Step(st, Err(EmailNotRegistered))
    ensures !IsBlank(rawEmail) && Strip(rawEmail) in st.passwords && !emailWellFormed ==>
              r == Step(st, Err(InvalidEmailAddress))
    ensures r.reply.Ok? <==>
              && !IsBlank(rawEmail) && Strip(rawEmail) in st.passwords && emailWellFormed
              && !CodeTaken(st.codes, Decimal(n))
    ensures r.reply.Ok? ==>
              && r.reply.value == Decimal(n)
              && r.state.codes == InvalidateFor(st.codes, Strip(rawEmail)) + [Record(Strip(rawEmail), Decimal(n), now, false)]
    ensures !IsBlank(rawEmail) && Strip(rawEmail) in st.passwords && emailWellFormed && CodeTaken(st.codes, Decimal(n)) ==>
              r.reply == Err(GenerationFailed)
    ensures r.reply == Err(GenerationFailed) ==> r.state.codes == InvalidateFor(st.codes, Strip(rawEmail))
  {
    var email := Strip(rawEmail);
    if email == [] then Step(st, Err(EmailRequired))
    else if email !in st.passwords then Step(st, Err(EmailNotRegistered))
    else if !emailWellFormed then Step(st, Err(InvalidEmailAddress))
    else
      var g := GenerateCode(st.codes, email, n, now);
      if g.created then Step(State(st.passwords, g.store), Ok(Decimal(n)))
      else Step(State(st.passwords, g.store), Err(GenerationFailed))
  }

  /** After a successful issue the new record is the only unused one for the
      email, and records of other emails are untouched. */
  lemma IssueSupersedes(st: State, rawEmail: string, n: nat, now: int)
    requires LowestCode <= n <= HighestCode
    requires Issue(st, rawEmail, true, n, now).reply.Ok?
    ensures var t := Issue(st, rawEmail, true, n, now).state.codes;
      && (forall i :: 0 <= i < |t| && t[i].email == Strip(rawEmail) ==> (!t[i].isUsed <==> i == |st.codes|))
      && (forall i :: 0 <= i < |st.codes| && st.codes[i].email != Strip(rawEmail) ==> t[i] == st.codes[i])
  {
    GenerateLeavesOneUnused(st.codes, Strip(rawEmail), n, now);
  }

  /** Issuing keeps the table invariants. */
  lemma IssuePreservesInvariant(st: State, rawEmail: string, wellFormed: bool, n: nat, now: int)
    requires LowestCode <= n <= HighestCode && Invariant(st.codes)
    ensures Invariant(Issue(st, rawEmail, wellFormed, n, now).state.codes)
  {
    GeneratePreservesInvariant(st.codes, Strip(rawEmail), n, now);
  }

  // ---------------------------------------------------------------------------
  // VerifyCodeView.post
  // ---------------------------------------------------------------------------

  /** Both fields survive `strip()` and the password is long enough: the view
      gets as far as the table lookup. */
  predicate InputsAccepted(rawCode: string, rawPassword: string) {
    !IsBlank(rawCode) && !IsBlank(rawPassword) && |Strip(rawPassword)| >= MinPasswordLength
  }

  /** Some record carrying `code` is valid at `now`. */
  predicate HasValidCode(s: Store, code: string, now: int) {
    exists i :: 0 <= i < |s| && s[i].code == code && IsValid(s[i], now)
  }

  /** `after` is `before` with the password of `email` set to `password` and
      the record at some position carrying `code`, valid at `now` and issued
      for `email`, marked used; nothing else differs. */
  predicate ResetBy(before: State, after: State, code: string, password: string, now: int, email: string) {
    && email in before.passwords
    && after.passwords == before.passwords[email := password]
    && exists i :: 0 <= i < |before.codes| && before.codes[i].code == code && IsValid(before.codes[i], now)
                   && before.codes[i].email == email && after.codes == MarkAsUsed(before.codes, i)
  }

  /** The view on the request fields `code` and `new_password` (absent fields
      read as "") at instant `now`. */
  function Consume(st: State, rawCode: string, rawPassword: string, now: int): (r: Step<string>)
    ensures r.reply.Err? ==> r.state == st
    ensures r.reply == Err(CodeAndPasswordRequired) <==> IsBlank(rawCode) || IsBlank(rawPassword)
    ensures r.reply == Err(PasswordTooShort) <==>
              !IsBlank(rawCode) && !IsBlank(rawPassword) && |Strip(rawPassword)| < MinPasswordLength
    ensures r.reply == Err(InvalidOrExpiredCode) <==>
              InputsAccepted(rawCode, rawPassword) && !HasValidCode(st.codes, Strip(rawCode), now)
    ensures r.reply == Err(UserAccountNotFound) <==>
              && InputsAccepted(rawCode, rawPassword)
              && LatestUnused(st.codes, Strip(rawCode)).Some?
              && IsValid(st.codes[LatestUnused(st.codes, Strip(rawCode)).value], now)
              && st.codes[LatestUnused(st.codes, Strip(rawCode)).value].email !in st.passwords
    ensures r.reply.Err? ==> r.reply.error in {CodeAndPasswordRequired, PasswordTooShort, InvalidOrExpiredCode, UserAccountNotFound}
    ensures r.reply.Ok? ==>
              && InputsAccepted(rawCode, rawPassword)
              && ResetBy(st, r.state, Strip(rawCode), Strip(rawPassword), now, r.reply.value)
  {
    var code := Strip(rawCode);
    var password := Strip(rawPassword);
    if code == [] || password == [] then Step(st, Err(CodeAndPasswordRequired))
    else if |password| < MinPasswordLength then Step(st, Err(PasswordTooShort))
    else match LatestUnused(st.codes, code)
      case None => Step(st, Err(InvalidOrExpiredCode))
      case Some(i) =>
        var rec := st.codes[i];
        if !IsValid(rec, now) then
          assert !HasValidCode(st.codes, code, now);
          Step(st, Err(InvalidOrExpiredCode))
        else if rec.email !in st.passwords then
          Step(st, Err(UserAccountNotFound))
        else
          Step(State(st.passwords[rec.email := password], MarkAsUsed(st.codes, i)), Ok(rec.email))
  }

  /** With codes unique, a consume succeeds exactly when the inputs pass, some
      record with the code is valid and its email belongs to a user. */
  lemma ConsumeSucceedsIff(st: State, rawCode: string, rawPassword: string, now: int)
    requires CodesUnique(st.codes)
    ensures Consume(st, rawCode, rawPassword, now).reply.Ok? <==>
              && InputsAccepted(rawCode, rawPassword)
              && exists i :: 0 <= i < |st.codes| && st.codes[i].code == Strip(rawCode)
                             && IsValid(st.codes[i], now) && st.codes[i].email in st.passwords
  {
    var code := Strip(rawCode);
    if InputsAccepted(rawCode, rawPassword) && LatestUnused(st.codes, code).Some? {
      LatestUnusedIsTheOnlyCarrier(st.codes, code);
    }
  }

  /** A valid code for a registered user whose record is not yet used, fed an
      acceptable password, is accepted at the expiry instant and refused one
      second later. */
  lemma ConsumeExpiryBoundary(st: State, i: nat, rawPassword: string)
    requires CodesUnique(st.codes) && i < |st.codes|
    requires !st.codes[i].isUsed && st.codes[i].email in st.passwords && IsCodeString(st.codes[i].code)
    requires !IsBlank(rawPassword) && |Strip(rawPassword)| >= MinPasswordLength
    ensures Consume(st, st.codes[i].code, rawPassword, st.codes[i].createdAt + 300).reply.Ok?
    ensures Consume(st, st.codes[i].code, rawPassword, st.codes[i].createdAt + 301).reply == Err(InvalidOrExpiredCode)
  {
    var c := st.codes[i].code;
    assert !IsSpace(c[0]) && !IsSpace(c[|c| - 1]);
    StripOfTrimmed(c);
    ConsumeSucceedsIff(st, c, rawPassword, st.codes[i].createdAt + 300);
    assert !HasValidCode(st.codes, c, st.codes[i].createdAt + 301);
  }

  /** A valid code whose email no longer names a user is answered with
      "User account not found", and the code stays unused. */
  lemma ConsumeUnknownUserKeepsCode(st: State, i: nat, rawPassword: string, now: int)
    requires CodesUnique(st.codes) && i < |st.codes|
    requires IsValid(st.codes[i], now) && st.codes[i].email !in st.passwords && IsCodeString(st.codes[i].code)
    requires !IsBlank(rawPassword) && |Strip(rawPassword)| >= MinPasswordLength
    ensures Consume(st, st.codes[i].code, rawPassword, now) == Step(st, Err(UserAccountNotFound))
  {
    var c := st.codes[i].code;
    assert !IsSpace(c[0]) && !IsSpace(c[|c| - 1]);
    StripOfTrimmed(c);
    LatestUnusedIsTheOnlyCarrier(st.codes, c);
  }

  /** A code that succeeded once fails on every later attempt, whatever the
      password and the instant. */
  lemma ConsumeIsSingleUse(st: State, rawCode: string, p1: string, p2: string, t1: int, t2: int)
    requires CodesUnique(st.codes)
    requires Consume(st, rawCode, p1, t1).reply.Ok?
    ensures Consume(Consume(st, rawCode, p1, t1).state, rawCode, p2, t2).reply.Err?
  {
    var st' := Consume(st, rawCode, p1, t1).state;
    var code := Strip(rawCode);
    var i := LatestUnused(st.codes, code).value;
    LatestUnusedIsTheOnlyCarrier(st.codes, code);
    assert st'.codes == MarkAsUsed(st.codes, i);
    assert forall j :: 0 <= j < |st'.codes| ==> !UnusedWithCode(st'.codes[j], code);
  }

  /** Consuming keeps the table invariants and never reopens a record. */
  lemma ConsumePreservesInvariant(st: State, rawCode: string, rawPassword: string, now: int)
    requires Invariant(st.codes)
    ensures Invariant(Consume(st, rawCode, rawPassword, now).state.codes)
    ensures OnlyMarksUsed(st.codes, Consume(st, rawCode, rawPassword, now).state.codes)
  {
    ConsumeTableChange(st, rawCode, rawPassword, now);
    var r := Consume(st, rawCode, rawPassword, now);
    if r.state.codes != st.codes {
      var i := LatestUnused(st.codes, Strip(rawCode)).value;
      MarkAsUsedPreservesInvariant(st.codes, i);
      MarkAsUsedOnlyMarksUsed(st.codes, i);
    }
  }

  /** The only change `Consume` can make to the table: marking the record
      the lookup found. */
  lemma ConsumeTableChange(st: State, rawCode: string, rawPassword: string, now: int)
    ensures var r := Consume(st, rawCode, rawPassword, now);
      || r.state.codes == st.codes
      || (&& LatestUnused(st.codes, Strip(rawCode)).Some?
          && r.state.codes == MarkAsUsed(st.codes, LatestUnused(st.codes, Strip(rawCode)).value))
  {
  }
}
