/** Sign-up form validation (`register`): every field is checked, the errors
    accumulate in a fixed order, and a pending email verification is created
    only when there is none. */
module Registration {
  import opened Wrappers
  import opened Text

  /** The raw POST fields (a missing field is ""). */
  datatype Form = Form(username: string, email: string, firstName: string, lastName: string,
                       password1: string, password2: string)

  /** An existing account, for the "already taken" checks. */
  datatype Account = Account(username: string, email: string)

  datatype RegError =
    | FirstNameMissing | FirstNameShort
    | LastNameMissing | LastNameShort
    | EmailMissing | EmailMalformed | EmailTaken
    | UsernameMissing | UsernameShort | UsernameTaken
    | PasswordMissing | ConfirmationMissing | PasswordsDiffer | PasswordShort
    | MailFailed(message: string)

  const MailErrorPrefix := "Email yuborishda xatolik: "

  /** The fixed message the form shows for each error other than a mail
      failure. */
  function FixedText(e: RegError): string
    requires !e.MailFailed?
  {
    match e
    case FirstNameMissing => "Ismingizni kiriting"
    case FirstNameShort => "Ism kamida 2 ta harfdan iborat bo'lishi kerak"
    case LastNameMissing => "Familiyangizni kiriting"
    case LastNameShort => "Familiya kamida 2 ta harfdan iborat bo'lishi kerak"
    case EmailMissing => "Email manzilingizni kiriting"
    case EmailMalformed => "Noto'g'ri email formati"
    case EmailTaken => "Bu email allaqachon ro'yxatdan o'tgan"
    case UsernameMissing => "Foydalanuvchi nomini kiriting"
    case UsernameShort => "Foydalanuvchi nomi kamida 3 ta belgidan iborat bo'lishi kerak"
    case UsernameTaken => "Bu foydalanuvchi nomi band. Boshqa nom tanlang"
    case PasswordMissing => "Parolni kiriting"
    case ConfirmationMissing => "Parolni tasdiqlang"
    case PasswordsDiffer => "Parollar bir xil emas"
    case PasswordShort => "Parol kamida 4 ta belgidan iborat bo'lishi kerak"
  }

  /** The message the form shows for an error; a mail failure's message is
      the mail prefix followed by the exception text. */
  function ErrorText(e: RegError): (t: string)
    ensures e.MailFailed? ==> |MailErrorPrefix| <= |t| && t[|MailErrorPrefix|..] == e.message
    ensures !e.MailFailed? ==> t == FixedText(e)
  {
    match e
    case MailFailed(m) => MailErrorPrefix + m
    case _ => FixedText(e)
  }

  /** Different exceptions give different mail-failure messages. */
  lemma MailTextInjective(a: string, b: string)
    requires ErrorText(MailFailed(a)) == ErrorText(MailFailed(b))
    ensures a == b
  {
    assert a == ErrorText(MailFailed(a))[|MailErrorPrefix|..];
  }

  const MinNameLength := 2
  const MinUsernameLength := 3
  const MinPasswordLength := 4

  // ---------------------------------------------------------------- email pattern

  predicate IsAsciiLetter(c: char) {
    ('a' <= c <= 'z') || ('A' <= c <= 'Z')
  }

  predicate IsAsciiAlnum(c: char) {
    IsAsciiLetter(c) || ('0' <= c <= '9')
  }

  /** `[a-zA-Z0-9._%+-]` */
  predicate LocalChar(c: char) {
    IsAsciiAlnum(c) || c == '.' || c == '_' || c == '%' || c == '+' || c == '-'
  }

  /** `[a-zA-Z0-9.-]` */
  predicate DomainChar(c: char) {
    IsAsciiAlnum(c) || c == '.' || c == '-'
  }

  /** The pattern `^[a-zA-Z0-9._%+-]+@[a-zA-Z0-9.-]+\.[a-zA-Z]{2,}$` matched
      with the '@' at `at` and the final dot at `dot`. */
  predicate EmailShape(s: string, at: int, dot: int) {
    0 < at && at + 1 < dot && dot + 2 < |s|
    && s[at] == '@' && s[dot] == '.'
    && (forall k :: 0 <= k < at ==> LocalChar(s[k]))
    && (forall k :: at < k < dot ==> DomainChar(s[k]))
    && (forall k :: dot < k < |s| ==> IsAsciiLetter(s[k]))
  }

  /** `s` matches the pattern (no trailing newline can reach here: the field
      was stripped). */
  ghost predicate MatchesEmailPattern(s: string) {
    exists at, dot :: EmailShape(s, at, dot)
  }

  /** Index of the first `c` in `s`, or `|s|`. */
  function FirstIndex(s: string, c: char): (i: nat)
    ensures i <= |s| && (i < |s| ==> s[i] == c)
    ensures forall k :: 0 <= k < i ==> s[k] != c
  {
    if |s| == 0 then 0 else if s[0] == c then 0 else 1 + FirstIndex(s[1..], c)
  }

  /** Index of the last `c` in `s`, or -1. */
  function LastIndex(s: string, c: char): (i: int)
    ensures -1 <= i < |s| && (i >= 0 ==> s[i] == c)
    ensures forall k :: i < k < |s| ==> s[k] != c
  {
    if |s| == 0 then -1 else if s[|s| - 1] == c then |s| - 1 else LastIndex(s[..|s| - 1], c)
  }

  /** A direct matcher: the '@' must be the first one, since no other
      character class admits '@', and the dot before the top-level part must
      be the last dot, since the top-level part is letters only. */
  function IsEmail(s: string): (b: bool) {
    var at := FirstIndex(s, '@');
    var dot := LastIndex(s, '.');
    at < |s| && EmailShape(s, at, dot)
  }

  /** The matcher accepts exactly the strings the pattern matches. */
  lemma IsEmailMatches(s: string)
    ensures IsEmail(s) <==> MatchesEmailPattern(s)
  {
    if MatchesEmailPattern(s) {
      var at, dot :| EmailShape(s, at, dot);
      var at' := FirstIndex(s, '@');
      var dot' := LastIndex(s, '.');
      assert at' == at;
      assert dot' == dot;
    }
  }

  // ---------------------------------------------------------------- validation

  /** The case-insensitive lookups `email__iexact` and `username__iexact`. */
  predicate EmailInUse(email: string, users: seq<Account>) {
    exists k :: 0 <= k < |users| && Lower(users[k].email) == Lower(email)
  }

  predicate UsernameInUse(username: string, users: seq<Account>) {
    exists k :: 0 <= k < |users| && Lower(users[k].username) == Lower(username)
  }

  /** The form as the view reads it: names and username stripped, email
      stripped and lower-cased, passwords untouched. */
  function Cleaned(f: Form): Form {
    Form(Strip(f.username), Lower(Strip(f.email)), Strip(f.firstName), Strip(f.lastName), f.password1, f.password2)
  }

  function NameErrors(name: string, missing: RegError, short: RegError): (es: seq<RegError>)
    ensures |es| <= 1
  {
    if name == "" then [missing] else if |name| < MinNameLength then [short] else []
  }

  function EmailErrors(email: string, users: seq<Account>): (es: seq<RegError>)
    ensures |es| <= 1
  {
    if email == "" then [EmailMissing]
    else if !IsEmail(email) then [EmailMalformed]
    else if EmailInUse(email, users) then [EmailTaken]
    else []
  }

  function UsernameErrors(username: string, users: seq<Account>): (es: seq<RegError>)
    ensures |es| <= 1
  {
    if username == "" then [UsernameMissing]
    else if |username| < MinUsernameLength then [UsernameShort]
    else if UsernameInUse(username, users) then [UsernameTaken]
    else []
  }

  /** The four independent password checks, in order. */
  function PasswordErrors(p1: string, p2: string): seq<RegError> {
    (if p1 == "" then [PasswordMissing] else [])
    + (if p2 == "" then [ConfirmationMissing] else [])
    + (if p1 != "" && p2 != "" && p1 != p2 then [PasswordsDiffer] else [])
    + (if p1 != "" && |p1| < MinPasswordLength then [PasswordShort] else [])
  }

  /** All validation errors of a cleaned form, in the order they are found. */
  function Errors(f: Form, users: seq<Account>): seq<RegError> {
    NameErrors(f.firstName, FirstNameMissing, FirstNameShort)
    + NameErrors(f.lastName, LastNameMissing, LastNameShort)
    + EmailErrors(f.email, users)
    + UsernameErrors(f.username, users)
    + PasswordErrors(f.password1, f.password2)
  }

  /** A form is acceptable when every rule holds. */
  ghost predicate Acceptable(f: Form, users: seq<Account>) {
    |f.firstName| >= MinNameLength && |f.lastName| >= MinNameLength
    && MatchesEmailPattern(f.email) && !EmailInUse(f.email, users)
    && |f.username| >= MinUsernameLength && !UsernameInUse(f.username, users)
    && |f.password1| >= MinPasswordLength && f.password1 == f.password2
  }

  /** No error is reported exactly when the form is acceptable. */
  lemma NoErrorsIffAcceptable(f: Form, users: seq<Account>)
    ensures Errors(f, users) == [] <==> Acceptable(f, users)
  {
    IsEmailMatches(f.email);
    if f.email != "" && MatchesEmailPattern(f.email) {
      assert IsEmail(f.email);
    }
  }

  /** The password rules report both a missing confirmation and a short
      password at once: errors accumulate rather than stop at the first. */
  lemma PasswordErrorsAccumulate(p1: string)
    requires 0 < |p1| < MinPasswordLength
    ensures PasswordErrors(p1, "") == [ConfirmationMissing, PasswordShort]
  {
  }

  /** What the view does with a POST: re-render with the errors, or create
      the pending verification (the stored password is the hash of
      `password1`, the hashing is not modelled) and send the code by mail;
      a mail failure deletes the verification and reports the error. */
  datatype Outcome =
    | Rejected(errors: seq<RegError>)
    | VerificationSent(username: string, email: string, firstName: string, lastName: string, password: string)

  function Register(raw: Form, users: seq<Account>, mailError: Option<string>): (r: Outcome)
    ensures r.VerificationSent? <==> Errors(Cleaned(raw), users) == [] && mailError.None?
    ensures r.VerificationSent? ==>
      r.username == Strip(raw.username) && r.email == Lower(Strip(raw.email)) && r.password == raw.password1
    ensures Errors(Cleaned(raw), users) != [] ==> r == Rejected(Errors(Cleaned(raw), users))
    ensures Errors(Cleaned(raw), users) == [] && mailError.Some? ==> r == Rejected([MailFailed(mailError.value)])
    ensures r.VerificationSent? ==> r.firstName == Strip(raw.firstName) && r.lastName == Strip(raw.lastName)
  {
    var f := Cleaned(raw);
    var errors := Errors(f, users);
    if errors != [] then Rejected(errors)
    else match mailError
      case Some(m) => Rejected([MailFailed(m)])
      case None => VerificationSent(f.username, f.email, f.firstName, f.lastName, f.password1)
  }

  /** Nothing is created unless every rule holds for the cleaned form. */
  lemma CreatedOnlyWhenAcceptable(raw: Form, users: seq<Account>, mailError: Option<string>)
    requires Register(raw, users, mailError).VerificationSent?
    ensures Acceptable(Cleaned(raw), users)
  {
    NoErrorsIffAcceptable(Cleaned(raw), users);
  }
}
