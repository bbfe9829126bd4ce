/** The client-side signup form: the password rules shown under the password field, the state record
    they are kept in, and the gate on the submit button. */
module SignupForm {

  /** The regular-expression classes the rules test with. */
  predicate IsLowercase(c: char) { 'a' <= c <= 'z' }
  predicate IsDigit(c: char) { '0' <= c <= '9' }
  predicate IsCapital(c: char) { 'A' <= c <= 'Z' }

  /** The class `[!@#$%^&*(),.?":{}|<>]`: twenty punctuation characters, and no others. */
  const SpecialCharacters: set<char> :=
    {'!', '@', '#', '$', '%', '^', '&', '*', '(', ')', ',', '.', '?', '\"', ':', '{', '}', '|', '<', '>'}

  /** What JavaScript's `\s` matches: the ECMAScript WhiteSpace and LineTerminator characters. */
  const Whitespace: set<char> :=
    {'\t', '\n', '\U{B}', '\U{C}', '\r', ' ', '\U{A0}', '\U{1680}',
     '\U{2000}', '\U{2001}', '\U{2002}', '\U{2003}', '\U{2004}', '\U{2005}', '\U{2006}', '\U{2007}', '\U{2008}', '\U{2009}', '\U{200A}',
     '\U{2028}', '\U{2029}', '\U{202F}', '\U{205F}', '\U{3000}', '\U{FEFF}'}

  predicate HasLowercase(s: string) { exists i | 0 <= i < |s| :: IsLowercase(s[i]) }
  predicate HasDigit(s: string) { exists i | 0 <= i < |s| :: IsDigit(s[i]) }
  predicate HasSpecial(s: string) { exists i | 0 <= i < |s| :: s[i] in SpecialCharacters }
  predicate HasCapital(s: string) { exists i | 0 <= i < |s| :: IsCapital(s[i]) }
  predicate HasWhitespace(s: string) { exists i | 0 <= i < |s| :: s[i] in Whitespace }

  /** Every character lies in the Basic Multilingual Plane, i.e. is one UTF-16 code unit. */
  predicate AllBmp(s: string) { forall i | 0 <= i < |s| :: s[i] as int <= 0xFFFF }

  /** JavaScript's `string.length`: the number of UTF-16 code units, so a character outside the Basic
      Multilingual Plane counts twice. */
  function Utf16Length(s: string): (n: nat)
    ensures n == |s| + |set i | 0 <= i < |s| && s[i] as int > 0xFFFF|
    ensures |s| <= n <= 2 * |s|
    ensures n == |s| <==> AllBmp(s)
  {
    if s == [] then 0
    else
      var init, last := s[..|s| - 1], s[|s| - 1];
      assert forall i | 0 <= i < |init| :: init[i] == s[i];
      assert (set i | 0 <= i < |s| && s[i] as int > 0xFFFF)
          == (set i | 0 <= i < |init| && init[i] as int > 0xFFFF) + (if last as int > 0xFFFF then {|s| - 1} else {});
      assert AllBmp(s) <==> AllBmp(init) && last as int <= 0xFFFF by {
        if AllBmp(init) && last as int <= 0xFFFF {
          forall i | 0 <= i < |s| ensures s[i] as int <= 0xFFFF {
            if i < |init| { assert s[i] == init[i]; }
          }
        }
      }
      Utf16Length(init) + (if last as int > 0xFFFF then 2 else 1)
  }

  /** The seven flags of the form's `validations` record, in declaration order. */
  datatype Validations = Validations(
    hasLetter: bool, hasNumber: bool, hasSpecial: bool, hasCapital: bool,
    hasNoSpace: bool, validLength: bool, passwordsMatch: bool)

  /** The record before any edit: every flag false except `hasNoSpace`. */
  const InitialValidations := Validations(false, false, false, false, true, false, false)

  datatype FormData = FormData(email: string, password: string, confirmPassword: string)

  datatype FieldName = Email | Password | ConfirmPassword

  /** The record `validatePassword` builds for a new password against the current confirmation. */
  function PasswordChecks(password: string, confirmPassword: string): Validations {
    Validations(
      hasLetter := HasLowercase(password),
      hasNumber := HasDigit(password),
      hasSpecial := HasSpecial(password),
      hasCapital := HasCapital(password),
      hasNoSpace := !HasWhitespace(password),
      validLength := 8 <= Utf16Length(password) <= 20,
      passwordsMatch := password == confirmPassword)
  }

  /** The six password rules the page lists, as one predicate. */
  predicate MeetsPolicy(password: string) {
    && HasLowercase(password) && HasDigit(password) && HasSpecial(password) && HasCapital(password)
    && !HasWhitespace(password) && 8 <= Utf16Length(password) <= 20
  }

  /** `Object.values(validations).every(value => value === true)`. */
  predicate AllChecksPass(v: Validations) {
    v.hasLetter && v.hasNumber && v.hasSpecial && v.hasCapital && v.hasNoSpace && v.validLength && v.passwordsMatch
  }

  /** How the flags relate to the form data between edits. The six character and length flags always
      describe the current password. `passwordsMatch` never claims a match that is not there, and
      reports every match of a non-empty password; before the first edit both fields are empty and
      the flag is still false. */
  predicate InSync(v: Validations, form: FormData) {
    && v.hasLetter == HasLowercase(form.password)
    && v.hasNumber == HasDigit(form.password)
    && v.hasSpecial == HasSpecial(form.password)
    && v.hasCapital == HasCapital(form.password)
    && v.hasNoSpace == !HasWhitespace(form.password)
    && v.validLength == (8 <= Utf16Length(form.password) <= 20)
    && (v.passwordsMatch ==> form.password == form.confirmPassword)
    && (form.password == form.confirmPassword && form.password != "" ==> v.passwordsMatch)
  }

  /** The submit gate, read through the invariant: the button is enabled exactly when the password
      meets every rule, the confirmation equals it, and the email contains `@`. */
  lemma SubmitGate(v: Validations, form: FormData)
    requires InSync(v, form)
    ensures (AllChecksPass(v) && '@' in form.email) <==>
      (MeetsPolicy(form.password) && form.password == form.confirmPassword && '@' in form.email)
  {
  }

  /** The text colour of one rule: gray exactly when the field is untouched, whatever the rule says;
      otherwise green or red by the rule. */
  function GetValidationColor(isValid: bool, isTouched: bool): (color: string)
    ensures color == "text-gray-400" <==> !isTouched
    ensures isTouched ==> (color == "text-green-400" <==> isValid) && (color == "text-red-400" <==> !isValid)
  {
    if !isTouched then "text-gray-400"
    else if isValid then "text-green-400" else "text-red-400"
  }

  /** The page's form state: `formData` and `validations`, updated in place on every edit. */
  class SignUpPage {
    var formData: FormData
    var validations: Validations

    ghost predicate Valid()
      reads this
    {
      InSync(validations, formData)
    }

    /** The first render: all fields empty, the initial flags, and a disabled submit button. */
    constructor ()
      ensures formData == FormData("", "", "") && validations == InitialValidations
      ensures Valid() && !IsFormValid()
    {
      formData := FormData("", "", "");
      validations := InitialValidations;
    }

    /** `validatePassword`: replaces all seven flags, judging `password` against the current confirmation. */
    method ValidatePassword(password: string)
      modifies this`validations
      ensures validations == PasswordChecks(password, formData.confirmPassword)
    {
      validations := PasswordChecks(password, formData.confirmPassword);
    }

    /** `handleChange`: stores the edited field, then updates only the flags that field affects. */
    method HandleChange(name: FieldName, value: string)
      requires Valid()
      modifies this
      ensures Valid()
      ensures formData == match name
        case Email => old(formData).(email := value)
        case Password => old(formData).(password := value)
        case ConfirmPassword => old(formData).(confirmPassword := value)
      // An email edit leaves every flag alone.
      ensures name == Email ==> validations == old(validations)
      // A password edit recomputes the six rules and re-compares with the confirmation.
      ensures name == Password ==> validations == PasswordChecks(value, old(formData).confirmPassword)
      // A confirmation edit changes `passwordsMatch` only.
      ensures name == ConfirmPassword ==>
        validations == old(validations).(passwordsMatch := value == old(formData).password)
    {
      match name {
        case Email =>
          formData := formData.(email := value);
        case Password =>
          formData := formData.(password := value);
          ValidatePassword(value);
        case ConfirmPassword =>
          formData := formData.(confirmPassword := value);
          validations := validations.(passwordsMatch := value == formData.password);
      }
    }

    /** `isFormValid`: every flag true and an `@` in the email. Between edits this is exactly the
        policy on the form data itself. */
    function IsFormValid(): (enabled: bool)
      reads this
      ensures Valid() ==>
        (enabled <==> MeetsPolicy(formData.password) && formData.password == formData.confirmPassword && '@' in formData.email)
    {
      assert Valid() ==> ((AllChecksPass(validations) && '@' in formData.email) <==>
        MeetsPolicy(formData.password) && formData.password == formData.confirmPassword && '@' in formData.email) by {
        if Valid() { SubmitGate(validations, formData); }
      }
      AllChecksPass(validations) && '@' in formData.email
    }
  }

  /** A password of capitals and digits only fails the letter rule: that rule looks for `a`–`z` alone. */
  lemma CapitalsAndDigitsLackLetter(password: string, confirmPassword: string)
    requires forall i | 0 <= i < |password| :: IsCapital(password[i]) || IsDigit(password[i])
    ensures !PasswordChecks(password, confirmPassword).hasLetter
  {
  }

  /** For a password of Basic Multilingual Plane characters the length rule is `8 <= |password| <= 20`. */
  lemma BmpLengthRule(password: string, confirmPassword: string)
    requires AllBmp(password)
    ensures PasswordChecks(password, confirmPassword).validLength <==> 8 <= |password| <= 20
  {
  }

  /** Four characters outside the Basic Multilingual Plane already satisfy the length rule, because
      each counts as two code units. */
  lemma AstralCharactersCountTwice()
    ensures PasswordChecks("\U{1F680}\U{1F680}\U{1F680}\U{1F680}", "").validLength
  {
    var p: string := "\U{1F680}\U{1F680}\U{1F680}\U{1F680}";
    var astral := set i | 0 <= i < |p| && p[i] as int > 0xFFFF;
    assert astral == {0, 1, 2, 3} by {
      assert forall i | 0 <= i < |p| :: p[i] as int > 0xFFFF;
    }
    assert |astral| == 4;
  }

  /** Visible ASCII characters are never whitespace. */
  lemma VisibleAsciiIsNotWhitespace(c: char)
    requires '!' <= c <= '~'
    ensures c !in Whitespace
  {
  }

  /** A typical accepted password. */
  lemma ExampleAccepted()
    ensures MeetsPolicy("Secret1!")
  {
    var ok := "Secret1!";
    assert IsCapital(ok[0]) && IsLowercase(ok[1]) && IsDigit(ok[6]) && ok[7] in SpecialCharacters;
    forall i | 0 <= i < |ok| ensures ok[i] !in Whitespace && ok[i] as int <= 0xFFFF {
      VisibleAsciiIsNotWhitespace(ok[i]);
    }
    assert AllBmp(ok);
  }

  /** Near misses: one rule fails in each. A dash or an underscore is not a special character. */
  lemma ExampleRejected()
    ensures !HasCapital("secret1!")
    ensures !HasLowercase("SECRET1!")
    ensures !HasSpecial("Secret1-_")
  {
  }

  /** A space is whitespace, so it fails the `hasNoSpace` rule. */
  lemma ExampleSpaced()
    ensures HasWhitespace("Secret 1!")
  {
    var spaced := "Secret 1!";
    assert spaced[6] in Whitespace;
  }
}
