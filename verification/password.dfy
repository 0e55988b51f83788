/** The password validators (password.validator.ts): the strength rule applied to every
    new password, and the rule that a confirmation equals the field it names. */
module Password {
  import opened JsText

  /** The special characters of the strength rule's last character class. Tilde, backtick
      and space are not among them. */
  const SpecialCharacters: string := "!@#$%^&*()_+-=[]{};':\"\\|,.<>/?"

  /** The four character classes the rule asks for; `\d` is ASCII digits only. */
  datatype CharClass = Lower | Upper | Digit | Special

  predicate InClass(c: char, k: CharClass) {
    match k
    case Lower => 'a' <= c <= 'z'
    case Upper => 'A' <= c <= 'Z'
    case Digit => IsDigit(c)
    case Special => c in SpecialCharacters
  }

  predicate HasClass(s: string, k: CharClass) {
    exists i :: 0 <= i < |s| && InClass(s[i], k)
  }

  /** What a strong password is: at least eight UTF-16 code units (the unit of
      `String.prototype.length`) and a character of each class. */
  predicate Strong(password: string) {
    && Utf16Length(password) >= 8
    && HasClass(password, Lower) && HasClass(password, Upper)
    && HasClass(password, Digit) && HasClass(password, Special)
  }

  /** `/[…]/.test(s)` for a one-character class: a scan for a matching character. */
  function Test(s: string, k: CharClass): (b: bool)
    ensures b <==> HasClass(s, k)
  {
    if |s| == 0 then false
    else if InClass(s[0], k) then true
    else
      var rest := Test(s[1..], k);
      assert HasClass(s, k) ==> HasClass(s[1..], k) by {
        if HasClass(s, k) {
          var i :| 0 <= i < |s| && InClass(s[i], k);
          assert s[1..][i - 1] == s[i];
        }
      }
      assert HasClass(s[1..], k) ==> HasClass(s, k) by {
        if HasClass(s[1..], k) {
          var i :| 0 <= i < |s[1..]| && InClass(s[1..][i], k);
          assert s[i + 1] == s[1..][i];
        }
      }
      rest
  }

  /** IsStrongPasswordConstraint.validate: the checks in the order the source makes them. */
  function Validate(password: string): (ok: bool)
    ensures ok <==> Strong(password)
  {
    if password == "" || Utf16Length(password) < 8 then false
    else if !Test(password, Lower) then false
    else if !Test(password, Upper) then false
    else if !Test(password, Digit) then false
    else if !Test(password, Special) then false
    else true
  }

  /** Seven characters of the Basic Multilingual Plane are too short, whatever they are. */
  lemma ShortPasswordRejected(password: string)
    requires |password| < 8
    requires forall i :: 0 <= i < |password| ==> password[i] as int <= 0xFFFF
    ensures !Validate(password)
  {
  }

  /** Length is counted in UTF-16 code units: seven characters, one of them outside the
      Basic Multilingual Plane, are long enough. */
  lemma SurrogatePairCountsTwice()
    ensures Validate("Aa1!\U{1F600}xy")
  {
    var p := "Aa1!\U{1F600}xy";
    assert AstralPositions(p) == {4} by {
      assert forall i :: 0 <= i < |p| && i != 4 ==> !IsAstral(p[i]);
      assert IsAstral(p[4]);
    }
    assert InClass(p[1], Lower) && InClass(p[0], Upper) && InClass(p[2], Digit) && InClass(p[3], Special);
  }

  /** Tilde, backtick and space do not stand in for a special character. */
  lemma ExcludedSymbolsDoNotCount(password: string)
    requires forall i :: 0 <= i < |password| ==>
      InClass(password[i], Lower) || InClass(password[i], Upper) || InClass(password[i], Digit)
      || password[i] == '~' || password[i] == '`' || password[i] == ' '
    ensures !Validate(password)
  {
    forall i | 0 <= i < |password| ensures !InClass(password[i], Special) {
      if InClass(password[i], Special) {
        SpecialIsPunctuation(password[i]);
      }
    }
  }

  /** Every special character is ASCII punctuation other than tilde and backtick. */
  lemma SpecialIsPunctuation(c: char)
    requires c in SpecialCharacters
    ensures '!' <= c <= '/' || ':' <= c <= '@' || '[' <= c <= '_' || '{' <= c <= '}'
  {
    var j :| 0 <= j < |SpecialCharacters| && SpecialCharacters[j] == c;
  }

  /** IsPasswordMatchConstraint.validate: the confirmation equals the value of the named
      property of the same object exactly; a property the object lacks is `undefined`,
      which no string equals. */
  function Matches(confirmation: string, fields: map<string, string>, property: string): (ok: bool)
    ensures ok ==> property in fields && fields[property] == confirmation
    ensures property in fields && fields[property] == confirmation ==> ok
  {
    if property in fields then confirmation == fields[property] else false
  }

  /** The reset-password and verify-account forms: `confirmPassword` must match `password`.
      The form is accepted iff both fields carry the same text, so a confirmation that
      passes beside a strong password is itself strong; a form without the `password`
      field never matches. */
  lemma ConfirmationForm(password: string, confirmation: string, key: string)
    ensures var form := map["password" := password, "confirmPassword" := confirmation, "key" := key];
      && (Matches(confirmation, form, "password") <==> confirmation == password)
      && (Validate(password) && Matches(confirmation, form, "password") ==> Validate(confirmation))
      && !Matches(confirmation, form - {"password"}, "password")
  {
    var form := map["password" := password, "confirmPassword" := confirmation, "key" := key];
    assert form["password"] == password;
    assert "password" !in form - {"password"};
  }
}
