/**
 * The two yup schemas of the user service: sign-in (email and password)
 * and sign-up (eight required fields). A field that is absent stands for
 * `undefined`; yup's `string().required()` also rejects the empty string,
 * while its `min`, `max` and `email` tests let an absent value through.
 */
module Schemas {

  import opened Wrappers

  const MinPasswordLength: nat := 8
  const MaxPasswordLength: nat := 15

  datatype Field = FirstName | LastName | Birthday | PhoneNumber | Address | Email | City | Password

  datatype Rule = Required | MinLength(min: nat) | MaxLength(max: nat) | EmailFormat | DateType

  datatype Violation = Violation(field: Field, rule: Rule)

  /**
   * yup's own format checks, which this model does not spell out:
   * `string().email()` and the date parsing of `date()`.
   */
  datatype Formats = Formats(isEmail: string -> bool, isDate: string -> bool)

  /** The object `registerUser` receives, field by field. */
  datatype SignUpRequest = SignUpRequest(
    firstName: Option<string>,
    lastName: Option<string>,
    birthday: Option<string>,
    phoneNumber: Option<string>,
    address: Option<string>,
    email: Option<string>,
    city: Option<string>,
    password: Option<string>)

  /** A value that `string().required()` accepts. */
  predicate Present(v: Option<string>)
  {
    v.Some? && v.value != ""
  }

  /**
   * A JavaScript string's `length`: the number of UTF-16 code units, two
   * for each character outside the Basic Multilingual Plane.
   */
  function Utf16Length(s: string): (n: nat)
    ensures |s| <= n <= 2 * |s|
    ensures n == |s| <==> forall i :: 0 <= i < |s| ==> s[i] as int <= 0xFFFF
  {
    if s == [] then 0
    else (if s[0] as int > 0xFFFF then 2 else 1) + Utf16Length(s[1..])
  }

  /** The password rule both schemas share: a string of 8 to 15 code units. */
  predicate PasswordAccepted(v: Option<string>)
  {
    v.Some? && MinPasswordLength <= Utf16Length(v.value) <= MaxPasswordLength
  }

  /** Every field of the sign-up object as the schema demands it. */
  predicate SignUpAccepted(r: SignUpRequest, formats: Formats)
  {
    && Present(r.firstName)
    && Present(r.lastName)
    && r.birthday.Some? && formats.isDate(r.birthday.value)
    && Present(r.phoneNumber)
    && Present(r.address)
    && Present(r.email) && formats.isEmail(r.email.value)
    && Present(r.city)
    && PasswordAccepted(r.password)
  }

  function RequiredString(f: Field, v: Option<string>): seq<Violation>
  {
    if Present(v) then [] else [Violation(f, Required)]
  }

  /** `string().required().min(8).max(15)` on the password field. */
  function PasswordViolations(v: Option<string>): (vs: seq<Violation>)
    ensures vs == [] <==> PasswordAccepted(v)
    ensures forall x :: x in vs ==> x.field == Password
  {
    RequiredString(Password, v)
      + (if v.Some? && Utf16Length(v.value) < MinPasswordLength then [Violation(Password, MinLength(MinPasswordLength))] else [])
      + (if v.Some? && Utf16Length(v.value) > MaxPasswordLength then [Violation(Password, MaxLength(MaxPasswordLength))] else [])
  }

  /** `string().email().required()`: the format test skips the empty string. */
  function EmailViolations(v: Option<string>, formats: Formats): (vs: seq<Violation>)
    ensures vs == [] <==> Present(v) && formats.isEmail(v.value)
    ensures forall x :: x in vs ==> x.field == Email
  {
    RequiredString(Email, v)
      + (if Present(v) && !formats.isEmail(v.value) then [Violation(Email, EmailFormat)] else [])
  }

  /** `date().required()`: an absent value is missing, any other must parse. */
  function DateViolations(v: Option<string>, formats: Formats): (vs: seq<Violation>)
    ensures vs == [] <==> v.Some? && formats.isDate(v.value)
    ensures forall x :: x in vs ==> x.field == Birthday
  {
    if v.None? then [Violation(Birthday, Required)]
    else if formats.isDate(v.value) then []
    else [Violation(Birthday, DateType)]
  }

  /** Validation of `{email, password}` against the sign-in schema. */
  function SignInViolations(email: Option<string>, password: Option<string>): (vs: seq<Violation>)
    ensures vs == [] <==> Present(email) && PasswordAccepted(password)
    ensures forall x :: x in vs ==> x.field == Email || x.field == Password
  {
    RequiredString(Email, email) + PasswordViolations(password)
  }

  /** Validation of the registration object against the sign-up schema. */
  function SignUpViolations(r: SignUpRequest, formats: Formats): (vs: seq<Violation>)
    ensures vs == [] <==> SignUpAccepted(r, formats)
  {
    RequiredString(FirstName, r.firstName)
      + RequiredString(LastName, r.lastName)
      + DateViolations(r.birthday, formats)
      + RequiredString(PhoneNumber, r.phoneNumber)
      + RequiredString(Address, r.address)
      + EmailViolations(r.email, formats)
      + RequiredString(City, r.city)
      + PasswordViolations(r.password)
  }

  /**
   * Length is counted in code units: four characters outside the Basic
   * Multilingual Plane make an acceptable password, eight make one too long.
   */
  lemma AstralPasswordLength()
    ensures PasswordAccepted(Some("\U{1F600}\U{1F600}\U{1F600}\U{1F600}"))
    ensures !PasswordAccepted(Some("\U{1F600}\U{1F600}\U{1F600}\U{1F600}\U{1F600}\U{1F600}\U{1F600}\U{1F600}"))
  {
  }

  /** Whatever sign-up accepts, sign-in accepts for the same email and password. */
  lemma SignUpAcceptsSignIn(r: SignUpRequest, formats: Formats)
    requires SignUpAccepted(r, formats)
    ensures SignInViolations(r.email, r.password) == []
  {
  }
}
