/** The input validators of `utils/validation.py`. Each one is a chain of guards; the first guard
    that fails decides the message, and a validator that passes every guard reports success.
    Python's `re` character classes are modelled over ASCII. */
module Validation {
  import opened Types

  /** The `(is_valid, message)` pair every validator returns. */
  datatype Verdict = Verdict(valid: bool, message: string)

  predicate IsUpper(c: char) { 'A' <= c <= 'Z' }
  predicate IsLower(c: char) { 'a' <= c <= 'z' }
  predicate IsDigit(c: char) { '0' <= c <= '9' }
  predicate IsLetter(c: char) { IsUpper(c) || IsLower(c) }
  predicate IsAlnum(c: char) { IsLetter(c) || IsDigit(c) }
  /** `[a-zA-Z0-9_]` */
  predicate IsWordChar(c: char) { IsAlnum(c) || c == '_' }
  /** `[a-zA-Z0-9._%+-]`, the local part of an e-mail address */
  predicate IsLocalChar(c: char) { IsAlnum(c) || c == '.' || c == '_' || c == '%' || c == '+' || c == '-' }
  /** `[a-zA-Z0-9.-]`, the domain part of an e-mail address */
  predicate IsDomainChar(c: char) { IsAlnum(c) || c == '.' || c == '-' }

  /** `re.search` of a one-character class: some character of `s` is in the class. */
  function Contains(s: string, inClass: char -> bool): (r: bool)
    ensures r <==> exists i :: 0 <= i < |s| && inClass(s[i])
  {
    if s == [] then false
    else if inClass(s[0]) then true
    else
      var r := Contains(s[1..], inClass);
      assert forall i :: 0 < i < |s| ==> s[i] == s[1..][i - 1];
      r
  }

  /** `re.match` of `^[class]*$`: every character of `s` is in the class. */
  function All(s: string, inClass: char -> bool): (r: bool)
    ensures r <==> forall i :: 0 <= i < |s| ==> inClass(s[i])
  {
    if s == [] then true
    else if !inClass(s[0]) then false
    else
      var r := All(s[1..], inClass);
      assert forall i :: 0 < i < |s| ==> s[i] == s[1..][i - 1];
      r
  }

  /** The position of the first `c` in `s`. */
  function IndexOf(s: string, c: char): (r: Option<nat>)
    ensures r.Some? ==> r.value < |s| && s[r.value] == c
    ensures r.Some? ==> forall j :: 0 <= j < r.value ==> s[j] != c
    ensures r.None? ==> forall j :: 0 <= j < |s| ==> s[j] != c
  {
    if s == [] then None
    else if s[0] == c then Some(0)
    else
      match IndexOf(s[1..], c)
      case None => None
      case Some(k) => Some(k + 1)
  }

  /** The position of the last `c` in `s`. */
  function LastIndexOf(s: string, c: char): (r: Option<nat>)
    ensures r.Some? ==> r.value < |s| && s[r.value] == c
    ensures r.Some? ==> forall j :: r.value < j < |s| ==> s[j] != c
    ensures r.None? ==> forall j :: 0 <= j < |s| ==> s[j] != c
  {
    if s == [] then None
    else if s[|s| - 1] == c then Some(|s| - 1)
    else LastIndexOf(s[..|s| - 1], c)
  }

  // ---------------------------------------------------------------------------------------------
  // validate_password

  const PasswordRequired := "Password is required"
  const PasswordTooShort := "Password must be at least 8 characters long"
  const PasswordNoUpper := "Password must contain at least one uppercase letter"
  const PasswordNoLower := "Password must contain at least one lowercase letter"
  const PasswordNoDigit := "Password must contain at least one number"
  const PasswordOk := "Password is valid"

  /** The password policy: at least 8 characters, with an upper-case letter, a lower-case
      letter and a digit somewhere in it. */
  ghost predicate StrongPassword(p: string) {
    && |p| >= 8
    && (exists i :: 0 <= i < |p| && IsUpper(p[i]))
    && (exists i :: 0 <= i < |p| && IsLower(p[i]))
    && (exists i :: 0 <= i < |p| && IsDigit(p[i]))
  }

  function ValidatePassword(p: string): (v: Verdict)
    ensures v.valid <==> StrongPassword(p)
    ensures v.valid <==> v.message == PasswordOk
  {
    if p == "" then Verdict(false, PasswordRequired)
    else if |p| < 8 then Verdict(false, PasswordTooShort)
    else if !Contains(p, IsUpper) then Verdict(false, PasswordNoUpper)
    else if !Contains(p, IsLower) then Verdict(false, PasswordNoLower)
    else if !Contains(p, IsDigit) then Verdict(false, PasswordNoDigit)
    else Verdict(true, PasswordOk)
  }

  /** Each failure message is reported exactly when its check is the first one to fail, in the
      order empty, length, upper-case, lower-case, digit. */
  lemma PasswordFailureOrder(p: string)
    ensures ValidatePassword(p).message == PasswordRequired <==> p == ""
    ensures ValidatePassword(p).message == PasswordTooShort <==> 0 < |p| < 8
    ensures ValidatePassword(p).message == PasswordNoUpper <==>
              |p| >= 8 && forall i :: 0 <= i < |p| ==> !IsUpper(p[i])
    ensures ValidatePassword(p).message == PasswordNoLower <==>
              && |p| >= 8 && (exists i :: 0 <= i < |p| && IsUpper(p[i]))
              && forall i :: 0 <= i < |p| ==> !IsLower(p[i])
    ensures ValidatePassword(p).message == PasswordNoDigit <==>
              && |p| >= 8 && (exists i :: 0 <= i < |p| && IsUpper(p[i]))
              && (exists i :: 0 <= i < |p| && IsLower(p[i]))
              && forall i :: 0 <= i < |p| ==> !IsDigit(p[i])
  {
  }

  // ---------------------------------------------------------------------------------------------
  // validate_email

  const EmailRequired := "Email is required"
  const EmailBadFormat := "Invalid email format"
  const EmailTooLong := "Email is too long (max 120 characters)"
  const EmailOk := "Email is valid"

  /** `^[a-zA-Z0-9._%+-]+@[a-zA-Z0-9.-]+\.[a-zA-Z]{2,}$`: a non-empty local part, `@`, a
      non-empty domain, a dot and a top-level domain of at least two letters. */
  ghost predicate EmailPattern(s: string) {
    exists at, dot :: EmailSplit(s, at, dot)
  }

  /** `s` matches the e-mail pattern with its `@` at `at` and the dot before its top-level
      domain at `dot`. */
  ghost predicate EmailSplit(s: string, at: int, dot: int) {
    && 0 < at && at + 1 < dot && dot + 2 < |s|
    && s[at] == '@' && s[dot] == '.'
    && (forall i :: 0 <= i < at ==> IsLocalChar(s[i]))
    && (forall i :: at < i < dot ==> IsDomainChar(s[i]))
    && (forall i :: dot < i < |s| ==> IsLetter(s[i]))
  }

  /** The matcher's conditions once the `@` is at `at` and the last dot of the domain is at
      `dot` of `s[at + 1..]`. */
  predicate EmailParts(s: string, at: nat, dot: nat)
    requires at < |s|
  {
    var domain := s[at + 1..];
    && 0 < at && All(s[..at], IsLocalChar)
    && All(domain, IsDomainChar)
    && 0 < dot && dot + 2 < |domain| && All(domain[dot + 1..], IsLetter)
  }

  /** The matcher: no local character is `@`, so the `@` of the pattern is the first one; no
      letter is a dot, so the dot before the top-level domain is the last one. */
  function MatchesEmail(s: string): bool {
    match IndexOf(s, '@')
    case None => false
    case Some(at) =>
      match LastIndexOf(s[at + 1..], '.')
      case None => false
      case Some(dot) => EmailParts(s, at, dot)
  }

  lemma SplitOfParts(s: string, at: nat, dot: nat)
    requires at < |s| && EmailParts(s, at, dot)
    requires s[at] == '@' && s[at + 1..][dot] == '.'
    ensures EmailSplit(s, at, at + 1 + dot)
  {
    var domain := s[at + 1..];
    var d := at + 1 + dot;
    assert s[d] == domain[dot];
    forall i | 0 <= i < at ensures IsLocalChar(s[i]) {
      assert s[..at][i] == s[i];
    }
    forall i | at < i < d ensures IsDomainChar(s[i]) {
      assert domain[i - at - 1] == s[i];
    }
    forall i | d < i < |s| ensures IsLetter(s[i]) {
      assert domain[dot + 1..][i - d - 1] == s[i];
    }
  }

  lemma MatchesEmailSound(s: string)
    requires MatchesEmail(s)
    ensures EmailPattern(s)
  {
    var at := IndexOf(s, '@').value;
    var dot := LastIndexOf(s[at + 1..], '.').value;
    SplitOfParts(s, at, dot);
  }

  /** No local character is an '@', so an '@' after a local part is the first one. */
  lemma FirstAt(s: string, at: nat)
    requires at < |s| && s[at] == '@'
    requires forall i :: 0 <= i < at ==> IsLocalChar(s[i])
    ensures IndexOf(s, '@') == Some(at)
  {
    var first := IndexOf(s, '@');
    assert first.Some?;
    assert !(first.value < at);
  }

  /** No letter is a dot, so a dot followed only by letters is the last one. */
  lemma LastDot(domain: string, dot: nat)
    requires dot < |domain| && domain[dot] == '.'
    requires forall i :: dot < i < |domain| ==> IsLetter(domain[i])
    ensures LastIndexOf(domain, '.') == Some(dot)
  {
    var last := LastIndexOf(domain, '.');
    assert last.Some?;
  }

  lemma PartsOfSplit(s: string, at: nat, d: nat)
    requires EmailSplit(s, at, d)
    ensures EmailParts(s, at, d - at - 1)
  {
    var local := s[..at];
    var domain := s[at + 1..];
    var dot := d - at - 1;
    var tld := domain[dot + 1..];
    forall i | 0 <= i < |local| ensures IsLocalChar(local[i]) {
      assert local[i] == s[i];
    }
    forall i | 0 <= i < |domain| ensures IsDomainChar(domain[i]) {
      assert domain[i] == s[at + 1 + i];
      if at + 1 + i > d { assert IsLetter(s[at + 1 + i]); }
    }
    forall i | 0 <= i < |tld| ensures IsLetter(tld[i]) {
      assert tld[i] == domain[dot + 1 + i];
    }
  }

  lemma MatchesEmailComplete(s: string, at: int, d: int)
    requires EmailSplit(s, at, d)
    ensures MatchesEmail(s)
  {
    FirstAt(s, at);
    PartsOfSplit(s, at, d);
    var domain := s[at + 1..];
    var dot := d - at - 1;
    assert domain[dot] == s[d];
    forall i | dot < i < |domain| ensures IsLetter(domain[i]) {
      assert domain[i] == s[at + 1 + i];
    }
    LastDot(domain, dot);
  }

  /** The matcher accepts exactly the strings of the e-mail pattern. */
  lemma MatchesEmailIff(s: string)
    ensures MatchesEmail(s) <==> EmailPattern(s)
  {
    if MatchesEmail(s) { MatchesEmailSound(s); }
    if EmailPattern(s) {
      var at, d :| EmailSplit(s, at, d);
      MatchesEmailComplete(s, at, d);
    }
  }

  function ValidateEmail(email: string): (v: Verdict)
    ensures v.valid <==> EmailPattern(email) && |email| <= 120
    ensures v.valid <==> v.message == EmailOk
    ensures v.message == EmailRequired <==> email == ""
    ensures v.message == EmailBadFormat <==> email != "" && !EmailPattern(email)
    ensures v.message == EmailTooLong <==> EmailPattern(email) && |email| > 120
  {
    MatchesEmailIff(email);
    if email == "" then Verdict(false, EmailRequired)
    else if !MatchesEmail(email) then Verdict(false, EmailBadFormat)
    else if |email| > 120 then Verdict(false, EmailTooLong)
    else Verdict(true, EmailOk)
  }

  /** The format is checked before the length cap: an over-long address that is also malformed
      is reported as malformed. */
  lemma LongMalformedEmailIsFormatError(email: string)
    requires |email| > 120 && !EmailPattern(email)
    ensures ValidateEmail(email) == Verdict(false, EmailBadFormat)
  {
  }

  // ---------------------------------------------------------------------------------------------
  // validate_username

  const UsernameRequired := "Username is required"
  const UsernameTooShort := "Username must be at least 3 characters long"
  const UsernameTooLong := "Username is too long (max 80 characters)"
  const UsernameBadChars := "Username can only contain letters, numbers, and underscores"
  const UsernameOk := "Username is valid"

  function ValidateUsername(u: string): (v: Verdict)
    ensures v.valid <==> 3 <= |u| <= 80 && forall i :: 0 <= i < |u| ==> IsWordChar(u[i])
    ensures v.valid <==> v.message == UsernameOk
    ensures v.message == UsernameRequired <==> u == ""
    // the length checks come before the character check
    ensures v.message == UsernameTooShort <==> 0 < |u| < 3
    ensures v.message == UsernameTooLong <==> |u| > 80
    ensures v.message == UsernameBadChars <==>
              3 <= |u| <= 80 && exists i :: 0 <= i < |u| && !IsWordChar(u[i])
  {
    if u == "" then Verdict(false, UsernameRequired)
    else if |u| < 3 then Verdict(false, UsernameTooShort)
    else if |u| > 80 then Verdict(false, UsernameTooLong)
    else if !All(u, IsWordChar) then Verdict(false, UsernameBadChars)
    else Verdict(true, UsernameOk)
  }

  // ---------------------------------------------------------------------------------------------
  // validate_course_code

  const CourseCodeRequired := "Course code is required"
  const CourseCodeBad := "Course code must be 3-10 alphanumeric characters"
  const CourseCodeOk := "Course code is valid"

  function ValidateCourseCode(code: string): (v: Verdict)
    ensures v.valid <==> 3 <= |code| <= 10 && forall i :: 0 <= i < |code| ==> IsAlnum(code[i])
    ensures v.valid <==> v.message == CourseCodeOk
    ensures v.message == CourseCodeRequired <==> code == ""
    ensures v.message == CourseCodeBad <==> code != "" && !v.valid
  {
    if code == "" then Verdict(false, CourseCodeRequired)
    else if !(3 <= |code| <= 10 && All(code, IsAlnum)) then Verdict(false, CourseCodeBad)
    else Verdict(true, CourseCodeOk)
  }

  // ---------------------------------------------------------------------------------------------
  // validate_string_length

  function DigitChar(d: nat): char
    requires d < 10
  {
    "0123456789"[d]
  }

  /** Python's `str()` of a non-negative integer. */
  function NatToString(n: nat): (r: string)
    ensures |r| > 0
  {
    if n < 10 then [DigitChar(n)] else NatToString(n / 10) + [DigitChar(n % 10)]
  }

  function Required(field: string): string { field + " is required" }
  function AtLeast(field: string, min: nat): string {
    field + " must be at least " + NatToString(min) + " characters"
  }
  function AtMost(field: string, max: nat): string {
    field + " must not exceed " + NatToString(max) + " characters"
  }

  /** The empty string fails even when `minLength` is 0: emptiness is checked first. */
  function ValidateStringLength(text: string, minLength: nat, maxLength: nat, field: string): (v: Verdict)
    ensures v.valid <==> text != "" && minLength <= |text| <= maxLength
    ensures text == "" ==> v == Verdict(false, Required(field))
    ensures text != "" && |text| < minLength ==> v == Verdict(false, AtLeast(field, minLength))
    ensures text != "" && minLength <= |text| && |text| > maxLength ==>
              v == Verdict(false, AtMost(field, maxLength))
  {
    if text == "" then Verdict(false, Required(field))
    else if |text| < minLength then Verdict(false, AtLeast(field, minLength))
    else if |text| > maxLength then Verdict(false, AtMost(field, maxLength))
    else Verdict(true, field + " is valid")
  }

  lemma EmptyFailsWithZeroMinimum(field: string, maxLength: nat)
    ensures !ValidateStringLength("", 0, maxLength, field).valid
  {
  }

  // ---------------------------------------------------------------------------------------------
  // str.upper(), over the ASCII characters the course-code validator admits

  predicate HasLower(s: string) {
    exists i :: 0 <= i < |s| && IsLower(s[i])
  }

  function UpperChar(c: char): char {
    if IsLower(c) then (c as int - 32) as char else c
  }

  function Upper(s: string): (r: string)
    ensures |r| == |s|
    ensures forall i :: 0 <= i < |s| ==> r[i] == UpperChar(s[i])
  {
    if s == [] then [] else [UpperChar(s[0])] + Upper(s[1..])
  }

  /** Upper-casing twice is upper-casing once, so a code stored upper-cased is found again by an
      upper-cased lookup. */
  lemma UpperIdempotent(s: string)
    ensures Upper(Upper(s)) == Upper(s)
  {
    assert forall i :: 0 <= i < |s| ==> UpperChar(UpperChar(s[i])) == UpperChar(s[i]);
  }

  /** Codes that differ only in the case of their letters have the same upper-cased form. */
  lemma UpperIgnoresCase(a: string, b: string)
    requires |a| == |b|
    requires forall i :: 0 <= i < |a| ==> a[i] == b[i] || UpperChar(a[i]) == b[i] || a[i] == UpperChar(b[i])
    ensures Upper(a) == Upper(b)
  {
    assert forall i :: 0 <= i < |a| ==> Upper(a)[i] == Upper(b)[i];
  }
}
