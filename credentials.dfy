/**
 * The username and password rules that sign-up and log-in both apply before
 * touching the user table.
 */
module Credentials {
  import opened Wrappers
  import opened Text
  import opened Requests

  const MinUsername: nat := 3
  const MaxUsername: nat := 31
  const MinPassword: nat := 6
  const MaxPassword: nat := 255

  /** `[a-z0-9_-]`. */
  predicate IsUsernameChar(c: char) {
    IsAsciiLower(c) || IsDigit(c) || c == '_' || c == '-'
  }

  /** A string of 3 to 31 characters matching `^[a-z0-9_-]+$`. */
  predicate ValidUsername(v: FormValue) {
    v.Text? && MinUsername <= |v.text| <= MaxUsername &&
    forall i :: 0 <= i < |v.text| ==> IsUsernameChar(v.text[i])
  }

  /** A string of 6 to 255 characters. */
  predicate ValidPassword(v: FormValue) {
    v.Text? && MinPassword <= |v.text| <= MaxPassword
  }

  /** Which check an input fails first: the username is checked before the password. */
  datatype CredentialError = BadUsername | BadPassword

  function CheckCredentials(username: FormValue, password: FormValue): (r: Option<CredentialError>)
    ensures r.None? <==> ValidUsername(username) && ValidPassword(password)
    ensures r == Some(BadUsername) <==> !ValidUsername(username)
    ensures r == Some(BadPassword) <==> ValidUsername(username) && !ValidPassword(password)
  {
    if !ValidUsername(username) then Some(BadUsername)
    else if !ValidPassword(password) then Some(BadPassword)
    else None
  }

  /**
   * A valid username is already in the form the rules ask for: lower-casing
   * and trimming leave it unchanged, and it holds no `@`, so it can never be
   * mistaken for an e-mail address.
   */
  lemma ValidUsernameIsNormal(v: FormValue)
    requires ValidUsername(v)
    ensures Lower(v.text) == v.text && TrimStart(v.text) == v.text && TrimEnd(v.text) == v.text
    ensures !Contains(v.text, "@")
  {
    var s := v.text;
    assert !IsSpace(s[0]) && !IsSpace(s[|s| - 1]);
    forall i | 0 <= i <= |s|
      ensures !("@" <= s[i..])
    {
      if i < |s| {
        assert s[i..][0] == s[i] && IsUsernameChar(s[i]);
      }
    }
    NotContainsFromOffsets(s, "@");
  }
}
