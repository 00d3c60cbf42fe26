/**
 The login form's credential validators: the email and username shape tests,
 the password rule chain, and the identifier check that picks between email
 and username rules. Each returns the message the form shows, `Valid`
 (the empty string) meaning the field is valid.

 Every regular expression the validators use appears twice: as a ghost
 predicate stating what the expression matches (its language, with the
 regex's choice of split points left as an existential), and as the
 executable test the validators run. Each executable test is proved to agree
 with its regular expression on every string.
 */
module Credentials {
  import opened Text

  /** What a validator returns. `Valid` is the empty string; every other
      message is the text `MessageText` gives, exactly as the form shows it. */
  datatype Message =
    | Valid
    | IdentifierRequired | InvalidEmail | InvalidUsername
    | PasswordRequired | PasswordTooShort
    | PasswordNoUppercase | PasswordNoLowercase | PasswordNoNumber | PasswordNoSpecial

  function MessageText(m: Message): (s: string)
    ensures s == "" <==> m == Valid
  {
    match m
    case Valid => ""
    case IdentifierRequired => "Email or Username is required"
    case InvalidEmail => "Please enter a valid email address"
    case InvalidUsername =>
      "Username can only contain letters, numbers, hyphens (-), and underscores (_). No spaces allowed."
    case PasswordRequired => "Password is required"
    case PasswordTooShort => "Password must be at least 8 characters long"
    case PasswordNoUppercase => "Password must contain at least one uppercase letter"
    case PasswordNoLowercase => "Password must contain at least one lowercase letter"
    case PasswordNoNumber => "Password must contain at least one number"
    case PasswordNoSpecial => "Password must contain at least one special character"
  }

  /** The minimum password length, in UTF-16 code units. */
  const MinPasswordLength: nat := 8

  predicate IsUpper(c: char) { 'A' <= c <= 'Z' }
  predicate IsLower(c: char) { 'a' <= c <= 'z' }
  predicate IsDigit(c: char) { '0' <= c <= '9' }

  /** The password's special-character class `[!@#$%^&*()_+\-=\[\]{};':"\\|,.<>\/?]`:
      30 ASCII punctuation characters, written out one by one. */
  const SpecialChars: set<char> := {
    '!', '@', '#', '$', '%', '^', '&', '*', '(', ')', '_', '+', '-', '=', '[', ']',
    '{', '}', ';', '\'', ':', '"', '\\', '|', ',', '.', '<', '>', '/', '?'
  }

  predicate IsSpecial(c: char) { c in SpecialChars }

  /** The username class `[a-zA-Z0-9_-]`. */
  predicate IsUsernameChar(c: char) {
    IsUpper(c) || IsLower(c) || IsDigit(c) || c == '_' || c == '-'
  }

  /** The email class `[^\s@]`. */
  predicate IsPlain(c: char) { !IsWs(c) && c != '@' }

  /* ---------------- Email ---------------- */

  /** The strings `/^[^\s@]+@[^\s@]+\.[^\s@]+$/` matches: a non-empty plain run,
      '@' at `i`, a non-empty plain run, '.' at `j`, a non-empty plain run. */
  ghost predicate MatchesEmailRegex(s: string) {
    exists i, j :: EmailRegexSplit(s, i, j)
  }

  /** The regular expression matches `s` with its '@' at `i` and its `\.` at `j`. */
  ghost predicate EmailRegexSplit(s: string, i: int, j: int) {
    && 0 < i && i + 1 < j && j + 1 < |s|
    && s[i] == '@' && s[j] == '.'
    && Every(s[..i], IsPlain) && Every(s[i + 1..j], IsPlain) && Every(s[j + 1..], IsPlain)
  }

  /** A '.' with at least one character on each side. */
  predicate HasInnerDot(d: string) {
    exists t :: 0 < t < |d| - 1 && d[t] == '.'
  }

  /** The two halves of an email around its '@': a non-empty local part and a
      domain, both free of whitespace and '@', the domain with an inner '.'. */
  ghost predicate EmailParts(local: string, domain: string) {
    && |local| > 0 && Every(local, IsPlain)
    && Every(domain, IsPlain) && HasInnerDot(domain)
  }

  /** `isValidEmail`: split at the first '@' and check the two halves. */
  function IsValidEmail(s: string): (b: bool)
    ensures b <==> MatchesEmailRegex(s)
  {
    var k := FirstIndexOf(s, '@');
    RegexSplitsAtFirstAt(s);
    0 < k < |s| && All(s[..k], IsPlain) && All(s[k + 1..], IsPlain) && HasInnerDot(s[k + 1..])
  }

  /** Whatever split the regular expression chooses, its '@' is the first '@'
      of the string, so matching reduces to checking the halves around it. */
  lemma RegexSplitsAtFirstAt(s: string)
    ensures var k := FirstIndexOf(s, '@');
      MatchesEmailRegex(s) <==> k < |s| && EmailParts(s[..k], s[k + 1..])
  {
    if MatchesEmailRegex(s) {
      RegexMatchSplitsAtFirstAt(s);
    }
    var k := FirstIndexOf(s, '@');
    if k < |s| && EmailParts(s[..k], s[k + 1..]) {
      FirstAtSplitMatchesRegex(s, k);
    }
  }

  lemma RegexMatchSplitsAtFirstAt(s: string)
    requires MatchesEmailRegex(s)
    ensures var k := FirstIndexOf(s, '@');
      k < |s| && EmailParts(s[..k], s[k + 1..])
  {
    var i, j :| EmailRegexSplit(s, i, j);
    OnlyAtIsFirst(s, i);
    RegexDomain(s, i, j);
  }

  /** The text after the regular expression's '@' is a valid domain. */
  lemma RegexDomain(s: string, i: int, j: int)
    requires EmailRegexSplit(s, i, j)
    ensures Every(s[i + 1..], IsPlain) && HasInnerDot(s[i + 1..])
  {
    var a, b := s[i + 1..j], s[j + 1..];
    var d := s[i + 1..];
    assert d == a + [s[j]] + b;
    EveryConcat(a, [s[j]], IsPlain);
    EveryConcat(a + [s[j]], b, IsPlain);
    assert d[j - i - 1] == '.';
  }

  /** An '@' with no '@' before it is the first one. */
  lemma OnlyAtIsFirst(s: string, i: nat)
    requires i < |s| && s[i] == '@' && Every(s[..i], IsPlain)
    ensures FirstIndexOf(s, '@') == i
  {
  }

  lemma FirstAtSplitMatchesRegex(s: string, k: nat)
    requires k < |s| && s[k] == '@' && EmailParts(s[..k], s[k + 1..])
    ensures MatchesEmailRegex(s)
  {
    var d := s[k + 1..];
    var t :| 0 < t < |d| - 1 && d[t] == '.';
    var j := k + 1 + t;
    assert s[k + 1..j] == d[..t];
    assert s[j + 1..] == d[t + 1..];
    assert d == d[..t] + [d[t]] + d[t + 1..];
    EveryConcat(d[..t], [d[t]], IsPlain);
    EveryConcat(d[..t] + [d[t]], d[t + 1..], IsPlain);
    assert EmailRegexSplit(s, k, j);
  }

  /** `isValidEmail(L + "@" + D)` holds exactly when `L` and `D` are valid
      halves of an email. */
  lemma EmailShape(local: string, domain: string)
    ensures IsValidEmail(local + "@" + domain) <==> EmailParts(local, domain)
  {
    var s := local + "@" + domain;
    var k := FirstIndexOf(s, '@');
    RegexSplitsAtFirstAt(s);
    assert s[|local|] == '@';
    assert s[..|local|] == local;
    assert s[|local| + 1..] == domain;
    if k < |local| {
      // An '@' inside `local` comes first: neither `local` nor the text after
      // that first '@' is then free of '@'.
      assert local[k] == '@';
      assert s[k + 1..][|local| - k - 1] == '@';
    } else {
      assert k == |local|;
    }
  }

  /** A valid email contains exactly one '@'. */
  lemma ValidEmailHasOneAt(s: string)
    requires IsValidEmail(s)
    ensures multiset(s)['@'] == 1
  {
    var k := FirstIndexOf(s, '@');
    RegexSplitsAtFirstAt(s);
    assert s == s[..k] + [s[k]] + s[k + 1..];
    var d := s[k + 1..];
    assert '@' !in d;
    assert multiset(s) == multiset(s[..k]) + multiset{'@'} + multiset(d);
  }

  /* ---------------- Username ---------------- */

  /** The strings `/^[a-zA-Z0-9_-]+$/` matches. */
  ghost predicate MatchesUsernameRegex(s: string) {
    |s| > 0 && Every(s, IsUsernameChar)
  }

  /** `isValidUsername`: the regular expression, and no space. The space test
      never changes the outcome, since a space is not in the class. */
  function IsValidUsername(s: string): (b: bool)
    ensures b <==> MatchesUsernameRegex(s)
  {
    s != [] && All(s, IsUsernameChar) && ' ' !in s
  }

  /* ---------------- Password ---------------- */

  /** The password rules, in the order `validatePassword` tries them. */
  datatype PasswordRule = Blank | TooShort | NoUppercase | NoLowercase | NoNumber | NoSpecial

  function Rank(rule: PasswordRule): nat {
    match rule
    case Blank => 0
    case TooShort => 1
    case NoUppercase => 2
    case NoLowercase => 3
    case NoNumber => 4
    case NoSpecial => 5
  }

  function RuleMessage(rule: PasswordRule): Message {
    match rule
    case Blank => PasswordRequired
    case TooShort => PasswordTooShort
    case NoUppercase => PasswordNoUppercase
    case NoLowercase => PasswordNoLowercase
    case NoNumber => PasswordNoNumber
    case NoSpecial => PasswordNoSpecial
  }

  /** `p` fails `rule`, stated with the regular expressions' meaning: an
      unanchored one-class test matches when some character is in the class.
      Length is that of the untrimmed password. */
  ghost predicate Violates(p: string, rule: PasswordRule) {
    match rule
    case Blank => IsBlank(p)
    case TooShort => Utf16Length(p) < MinPasswordLength
    case NoUppercase => !Occurs(p, IsUpper)
    case NoLowercase => !Occurs(p, IsLower)
    case NoNumber => !Occurs(p, IsDigit)
    case NoSpecial => !Occurs(p, IsSpecial)
  }

  ghost predicate PasswordAcceptable(p: string) {
    && !IsBlank(p)
    && Utf16Length(p) >= MinPasswordLength
    && Occurs(p, IsUpper) && Occurs(p, IsLower) && Occurs(p, IsDigit) && Occurs(p, IsSpecial)
  }

  /** `validatePassword`: the first failing rule's message, or `Valid`. */
  function ValidatePassword(p: string): (msg: Message)
    ensures msg == Valid <==> PasswordAcceptable(p)
  {
    TrimEmptyIffBlank(p);
    if Trim(p) == [] then PasswordRequired
    else if Utf16Length(p) < MinPasswordLength then PasswordTooShort
    else if !Contains(p, IsUpper) then PasswordNoUppercase
    else if !Contains(p, IsLower) then PasswordNoLowercase
    else if !Contains(p, IsDigit) then PasswordNoNumber
    else if !Contains(p, IsSpecial) then PasswordNoSpecial
    else Valid
  }

  /** First failure wins: the password's message is a rule's message exactly
      when the password fails that rule and passes every earlier one. */
  lemma PasswordFirstFailureWins(p: string, rule: PasswordRule)
    ensures ValidatePassword(p) == RuleMessage(rule)
        <==> Violates(p, rule) && forall earlier :: Rank(earlier) < Rank(rule) ==> !Violates(p, earlier)
  {
    if ValidatePassword(p) != Valid {
      var first := FirstFailure(p);
    }
  }

  /** The rule whose message a rejected password gets, and the fact that it is
      the first rule the password fails. */
  lemma FirstFailure(p: string) returns (first: PasswordRule)
    requires ValidatePassword(p) != Valid
    ensures ValidatePassword(p) == RuleMessage(first) && Violates(p, first)
    ensures forall earlier :: Rank(earlier) < Rank(first) ==> !Violates(p, earlier)
  {
    TrimEmptyIffBlank(p);
    if IsBlank(p) {
      first := Blank;
    } else if Utf16Length(p) < MinPasswordLength {
      first := TooShort;
    } else if !Occurs(p, IsUpper) {
      first := NoUppercase;
    } else if !Occurs(p, IsLower) {
      first := NoLowercase;
    } else if !Occurs(p, IsDigit) {
      first := NoNumber;
    } else {
      first := NoSpecial;
    }
    forall earlier | Rank(earlier) < Rank(first) ensures !Violates(p, earlier) {
      match earlier
      case Blank =>
      case TooShort =>
      case NoUppercase =>
      case NoLowercase =>
      case NoNumber =>
      case NoSpecial =>
    }
  }

  /** A whitespace-only password is reported as missing whatever its length. */
  lemma BlankPasswordIsRequired(p: string)
    requires IsBlank(p)
    ensures ValidatePassword(p) == PasswordRequired
  {
    TrimEmptyIffBlank(p);
  }

  /* ---------------- Email or username ---------------- */

  /** The identifier field is acceptable when it is not blank and passes the
      email rule if it contains '@', the username rule otherwise. */
  ghost predicate IdentifierAcceptable(v: string) {
    !IsBlank(v) && if '@' in v then MatchesEmailRegex(v) else MatchesUsernameRegex(v)
  }

  /** `validateEmailOrUsername`. Only the blank check trims; the email and
      username tests see the untrimmed value. */
  function ValidateEmailOrUsername(v: string): (msg: Message)
    ensures msg == Valid <==> IdentifierAcceptable(v)
    ensures msg == IdentifierRequired <==> IsBlank(v)
    ensures msg == InvalidEmail <==> !IsBlank(v) && '@' in v && !MatchesEmailRegex(v)
    ensures msg == InvalidUsername <==> !IsBlank(v) && '@' !in v && !MatchesUsernameRegex(v)
  {
    TrimEmptyIffBlank(v);
    if Trim(v) == [] then IdentifierRequired
    else if '@' in v then
      if !IsValidEmail(v) then InvalidEmail else Valid
    else
      if !IsValidUsername(v) then InvalidUsername else Valid
  }

  /** Any email-shaped value is an acceptable identifier: it contains '@',
      its '@' stops it from being blank, and it passes the email test. */
  lemma EmailShapedIdentifierAccepted(local: string, domain: string)
    requires EmailParts(local, domain)
    ensures ValidateEmailOrUsername(local + "@" + domain) == Valid
  {
    var v := local + "@" + domain;
    assert v[|local|] == '@';
    EmailShape(local, domain);
  }
}
