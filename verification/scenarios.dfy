/**
 Concrete inputs worked through the model: the password rule order, the
 untrimmed length, the identifier's sticky '@' classification, and two
 complete submits. Some inputs are spelled as concatenations, such as
 `"john" + "@" + "example.com"`; that is the same string value as the single
 literal, split only to keep the proofs cheap.
 */
module Scenarios {
  import opened Text
  import opened Credentials
  import opened LoginForm

  /** Backtick, tilde and space are not special characters. */
  lemma SpecialClassExclusions()
    ensures !IsSpecial('`') && !IsSpecial('~') && !IsSpecial(' ')
    ensures IsSpecial('!') && IsSpecial('\\') && IsSpecial('"') && IsSpecial('-')
  {
  }

  /** Nine characters with lowercase, digit and special but no uppercase: the
      uppercase message, not any later one. */
  lemma MissingUppercaseOnly()
    ensures ValidatePassword("aaaaaaa" + "1!") == PasswordNoUppercase
  {
    var p := "aaaaaaa" + "1!";
    forall i | 0 <= i < |p| ensures !IsUpper(p[i]) {
      assert 'a' <= p[i] <= 'z' || p[i] == '1' || p[i] == '!';
    }
    assert !IsBlank(p) by { assert !IsWs(p[0]); }
    PasswordFirstFailureWins(p, NoUppercase);
  }

  lemma AllRulesMet()
    ensures ValidatePassword("Abcdef1!") == Valid
  {
    var p := "Abcdef1!";
    assert IsUpper(p[0]) && IsLower(p[1]) && IsDigit(p[6]) && IsSpecial(p[7]);
    assert !IsWs(p[0]);
  }

  /** Length counts the surrounding spaces: four visible characters padded to
      eight pass the length rule. */
  lemma LengthIsUntrimmed()
    ensures ValidatePassword("  " + "Ab1!" + "  ") == Valid
  {
    var p := "  " + "Ab1!" + "  ";
    assert IsUpper(p[2]) && IsLower(p[3]) && IsDigit(p[4]) && IsSpecial(p[5]);
    assert !IsWs(p[2]);
  }

  /** Length counts UTF-16 code units: six characters, two of them outside
      the Basic Multilingual Plane, make a string of length eight. */
  lemma AstralCharactersCountTwice()
    ensures Utf16Length("Ab1!" + "\U{1F600}\U{1F600}") == 8
  {
    Utf16LengthAppend("Ab1!", "\U{1F600}\U{1F600}");
  }

  /** ... so a six-character password can meet the length rule. */
  lemma SixCharacterPasswordAccepted()
    ensures ValidatePassword("Ab1!" + "\U{1F600}\U{1F600}") == Valid
  {
    var p := "Ab1!" + "\U{1F600}\U{1F600}";
    AstralCharactersCountTwice();
    assert IsUpper(p[0]) && IsLower(p[1]) && IsDigit(p[2]) && IsSpecial(p[3]);
    assert !IsWs(p[0]);
  }

  /** A leading space is not trimmed before the email test, so the value is
      rejected as an email, and never judged as a username. */
  lemma LeadingSpaceEmailRejected()
    ensures ValidateEmailOrUsername(" a" + "@" + "b.c") == InvalidEmail
  {
    var v := " a" + "@" + "b.c";
    assert v[1] == 'a' && v[2] == '@';
    assert !IsBlank(v) by { assert !IsWs(v[1]); }
    assert !EmailParts(" a", "b.c") by { assert !IsPlain(" a"[0]); }
    EmailShape(" a", "b.c");
  }

  lemma EmailAccepted()
    ensures ValidateEmailOrUsername("john" + "@" + "example.com") == Valid
  {
    ExampleEmailParts();
    EmailShapedIdentifierAccepted("john", "example.com");
  }

  lemma ExampleEmailParts()
    ensures EmailParts("john", "example.com")
  {
    var local, domain := "john", "example.com";
    forall i | 0 <= i < |local| ensures IsPlain(local[i]) {
      assert 'a' <= local[i] <= 'z';
    }
    forall i | 0 <= i < |domain| ensures IsPlain(domain[i]) {
      assert 'a' <= domain[i] <= 'z' || domain[i] == '.';
    }
    assert domain[7] == '.';
  }

  /** A complete submit that proceeds. */
  lemma ValidLoginProceeds()
    ensures HandleSubmit(Form("john" + "@" + "example.com", "Passw0rd!", map[], false)).proceeds
  {
    EmailAccepted();
    PasswordAccepted();
  }

  lemma PasswordAccepted()
    ensures ValidatePassword("Passw0rd!") == Valid
  {
    var p := "Passw0rd!";
    assert IsUpper(p[0]) && IsLower(p[1]) && IsDigit(p[5]) && IsSpecial(p[8]);
    assert !IsWs(p[0]);
  }

  lemma UsernameWithSpaceRejected()
    ensures ValidateEmailOrUsername("john doe") == InvalidUsername
  {
    var id := "john doe";
    assert !IsUsernameChar(id[4]);
    assert !IsWs(id[0]);
  }

  lemma ShortPasswordRejected()
    ensures ValidatePassword("short") == PasswordTooShort
  {
    var p := "short";
    assert !IsWs(p[0]);
    assert Utf16Length(p) < MinPasswordLength;
    PasswordFirstFailureWins(p, TooShort);
  }

  /** A complete submit that is rejected with both fields' messages. */
  lemma InvalidLoginShowsBothErrors()
    ensures var s := HandleSubmit(Form("john doe", "short", map[], false));
      && !s.proceeds
      && s.form.errors[EmailOrUsername] == MessageText(InvalidUsername)
      && s.form.errors[Password] == MessageText(PasswordTooShort)
  {
    UsernameWithSpaceRejected();
    ShortPasswordRejected();
    SubmitStoresBothMessages(Form("john doe", "short", map[], false));
  }
}
