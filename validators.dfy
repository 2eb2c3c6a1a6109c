/**
 * The request-field rules of the validation chains, as predicates over the
 * submitted values. `trim()` in a chain rewrites the field before the rule
 * is applied; `optional()` lets an absent field through.
 */
module Validators {
  import opened Wrappers
  import Text
  import UserModel
  import StoreModel
  import RatingModel

  /** `name`: trimmed, then 20 to 60 characters. */
  predicate NameValid(name: string) {
    20 <= |Text.Trim(name)| <= 60
  }

  /** The class `[!@#$%^&*(),.?":{}|<>]`. */
  predicate IsSpecial(c: char) {
    c in "!@#$%^&*(),.?\":{}|<>"
  }

  predicate HasUpper(s: string) {
    exists i | 0 <= i < |s| :: Text.IsUpper(s[i])
  }

  predicate HasSpecial(s: string) {
    exists i | 0 <= i < |s| :: IsSpecial(s[i])
  }

  /** `password`: not trimmed; 8 to 16 characters, one of them `[A-Z]` and one special. */
  predicate PasswordValid(password: string) {
    8 <= |password| <= 16 && HasUpper(password) && HasSpecial(password)
  }

  /** `newPassword` of the change-password flow: the same rule as `password`. */
  predicate NewPasswordValid(password: string) {
    PasswordValid(password)
  }

  /** An optional field after `optional().trim()`: trimmed when present, absent otherwise. */
  function TrimIfPresent(v: Option<string>): (r: Option<string>)
    ensures r.None? <==> v.None?
    ensures r.Some? ==> r.value == Text.Trim(v.value)
  {
    if v.None? then None else Some(Text.Trim(v.value))
  }

  /**
   * A field whose chain starts with `trim()` and has no `optional()`: the
   * chain reads an absent field as the empty string, so the handler always
   * receives a string, with no white space at either end.
   */
  function TrimOrEmpty(v: Option<string>): (r: string)
    ensures v.None? ==> r == ""
    ensures v.Some? ==> r == Text.Trim(v.value)
    ensures r == [] || (!Text.IsSpace(r[0]) && !Text.IsSpace(r[|r| - 1]))
  {
    if v.None? then "" else Text.Trim(v.value)
  }

  /** `address`: optional; trimmed, then at most 400 characters. */
  predicate AddressValid(address: Option<string>) {
    address.None? || |Text.Trim(address.value)| <= 400
  }

  /** `role`: optional; one of `admin`, `user`, `owner`. */
  predicate RoleValid(role: Option<string>) {
    role.None? || role.value in {"admin", "user", "owner"}
  }

  /** `oldPassword`: present and not falsy, so not the empty string. */
  predicate OldPasswordValid(oldPassword: Option<string>) {
    oldPassword.Some? && oldPassword.value != ""
  }

  /** Store `name`: trimmed, then not empty and at most 200 characters. */
  predicate StoreNameValid(name: string) {
    0 < |Text.Trim(name)| <= 200
  }

  /** A JavaScript number that `isInt` accepts: it has no fractional part. */
  predicate IsWhole(v: real) {
    v == v.Floor as real
  }

  /** `rating`: `isInt({ min: 1, max: 5 })`. */
  predicate RatingValueValid(v: real) {
    IsWhole(v) && 1.0 <= v <= 5.0
  }

  predicate IsDigit(c: char) {
    '0' <= c <= '9'
  }

  /** `storeId` route parameter: `isInt()`, that is `^[-+]?[0-9]+$`. */
  predicate StoreIdValid(s: string) {
    |Unsigned(s)| > 0 && forall i | 0 <= i < |Unsigned(s)| :: IsDigit(Unsigned(s)[i])
  }

  /** `s` without one leading `-` or `+`. */
  function Unsigned(s: string): string {
    if |s| > 0 && (s[0] == '-' || s[0] == '+') then s[1..] else s
  }

  /** Surrounding white space does not change whether a name is accepted. */
  lemma NameValidIgnoresPadding(name: string, c: char)
    requires Text.IsSpace(c)
    ensures NameValid([c] + name) == NameValid(name)
    ensures NameValid(name + [c]) == NameValid(name)
  {
    Text.TrimIgnoresPadding(name, c);
  }

  /** The password is not trimmed: padding a 16-character valid password makes it too long. */
  lemma PasswordCountsPadding(password: string, c: char)
    requires PasswordValid(password) && |password| == 16
    ensures !PasswordValid([c] + password)
    ensures !NewPasswordValid(password + [c])
  {
  }

  /** The role rule accepts exactly the names of the schema's role enumeration. */
  lemma RoleValidMatchesEnum(role: Option<string>)
    ensures RoleValid(role) <==> role.None? || UserModel.ParseRole(role.value).Some?
  {
  }

  /** A name the chain accepts reaches the model trimmed, and the model accepts it. */
  lemma NameValidMeetsSchema(name: string)
    requires NameValid(name)
    ensures UserModel.NameOk(Text.Trim(name))
  {
  }

  /** A store name the chain accepts reaches the model trimmed, and the model accepts it. */
  lemma StoreNameValidMeetsSchema(name: string)
    requires StoreNameValid(name)
    ensures StoreModel.StoreNameOk(Text.Trim(name))
  {
    var t := Text.Trim(name);
    assert !Text.IsSpace(t[0]);
  }

  /** An address the chain accepts reaches the models trimmed, and both address columns accept it. */
  lemma AddressValidMeetsSchema(address: Option<string>)
    requires AddressValid(address)
    ensures UserModel.AddressOk(TrimIfPresent(address))
    ensures StoreModel.StoreAddressOk(TrimIfPresent(address))
  {
  }

  /**
   * The password rule needs all three parts: a length from 8 to 16, an
   * upper-case letter and a special character.
   */
  lemma PasswordRuleParts()
    ensures PasswordValid("Secret!Pass1")
    ensures !PasswordValid("secret!pass1")
    ensures !PasswordValid("SecretPass12")
    ensures !PasswordValid("Sec!")
  {
    assert Text.IsUpper("Secret!Pass1"[0]) && IsSpecial("Secret!Pass1"[6]);
    var lower := "secret!pass1";
    forall i | 0 <= i < |lower| ensures !Text.IsUpper(lower[i]) {
      assert lower[i] in "secret!pas1";
    }
    var plain := "SecretPass12";
    forall i | 0 <= i < |plain| ensures !IsSpecial(plain[i]) {
      assert plain[i] in "SecretPas12";
    }
  }

  /** `exists({ checkFalsy: true })`: a missing or empty old password is refused, any other accepted. */
  lemma OldPasswordRefusesFalsy(oldPassword: Option<string>)
    ensures !OldPasswordValid(None) && !OldPasswordValid(Some(""))
    ensures oldPassword.Some? && oldPassword.value != "" ==> OldPasswordValid(oldPassword)
  {
  }

  /** The `storeId` rule takes an optional sign and then digits only. */
  lemma StoreIdRuleCases()
    ensures StoreIdValid("42") && StoreIdValid("-7") && StoreIdValid("+7")
    ensures !StoreIdValid("") && !StoreIdValid("+") && !StoreIdValid("4.2") && !StoreIdValid("x1")
  {
    var n, m, p := "42", "-7", "+7";
    assert n == ['4', '2'] && m == ['-', '7'] && p == ['+', '7'];
    forall i | 0 <= i < |n| ensures IsDigit(n[i]) {
      if i == 0 { assert n[i] == '4'; } else { assert n[i] == '2'; }
    }
    assert m[1..] == ['7'] && p[1..] == ['7'];
    assert Unsigned(m) == ['7'] && Unsigned(p) == ['7'];
    var f, x := "4.2", "x1";
    assert f == ['4', '.', '2'] && x == ['x', '1'];
    assert Unsigned(f) == f && Unsigned(x) == x;
    assert !IsDigit(f[1]) && !IsDigit(x[0]);
  }

  /** A rating the chain accepts is a whole score the model's range accepts. */
  lemma RatingValueValidMeetsSchema(v: real)
    requires RatingValueValid(v)
    ensures RatingModel.ScoreOk(v.Floor) && v.Floor as real == v
  {
  }
}
