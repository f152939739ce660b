/**
 * The validation constraints declared on the `User` properties, and what
 * Symfony's NotBlank and Length validators report for a property value.
 */
module UserConstraints {
  import opened Wrappers

  const FIRST_NAME: string := "firstName"
  const LAST_NAME: string := "lastName"
  const EMAIL: string := "email"
  const PASSWORD: string := "password"

  datatype Constraint =
    | NotBlank(message: string)
    | Length(min: nat, max: nat, minMessage: string, maxMessage: string)

  /** The constraints of a property, in declaration order; `{{ limit }}` is written out. */
  function ConstraintsOf(field: string): seq<Constraint> {
    if field == FIRST_NAME then
      [ NotBlank("First name can not be blank"),
        Length(3, 50, "First name must be at least 3 characters long",
               "First name cannot be longer than 50 characters") ]
    else if field == LAST_NAME then
      [ NotBlank("Last name can not be blank"),
        Length(3, 50, "Last name must be at least 3 characters long",
               "Last name cannot be longer than 50 characters") ]
    else if field == PASSWORD then
      [ NotBlank("Password can not be blank"),
        Length(4, 50, "Password must be at least 4 characters long",
               "Password cannot be longer than 50 characters") ]
    else []
  }

  /** NotBlank on a string property: null and "" are blank, "0" is not. */
  predicate Blank(value: Option<string>) {
    value.None? || value.value == ""
  }

  /** The message one constraint reports for `value`, if any; Length ignores null. */
  function Check(c: Constraint, value: Option<string>): Option<string> {
    match c
    case NotBlank(message) =>
      if Blank(value) then Some(message) else None
    case Length(min, max, minMessage, maxMessage) =>
      if value.None? then None
      else if |value.value| > max then Some(maxMessage)
      else if |value.value| < min then Some(minMessage)
      else None
  }

  function CheckAll(cs: seq<Constraint>, value: Option<string>): seq<string> {
    if cs == [] then []
    else
      var rest := CheckAll(cs[1..], value);
      match Check(cs[0], value)
      case Some(m) => [m] + rest
      case None => rest
  }

  /** Messages for `field` holding `value`, in the order the validator adds them. */
  function Violations(field: string, value: Option<string>): seq<string> {
    CheckAll(ConstraintsOf(field), value)
  }

  predicate IsValid(field: string, value: Option<string>) {
    Violations(field, value) == []
  }

  /** Names: non-blank with 3 to 50 characters. */
  lemma NameValidIff(field: string, value: Option<string>)
    requires field == FIRST_NAME || field == LAST_NAME
    ensures IsValid(field, value) <==> value.Some? && 3 <= |value.value| <= 50
  {
    TwoConstraints(ConstraintsOf(field), value);
  }

  /** The password, checked as submitted: non-blank with 4 to 50 characters. */
  lemma PasswordValidIff(value: Option<string>)
    ensures IsValid(PASSWORD, value) <==> value.Some? && 4 <= |value.value| <= 50
  {
    TwoConstraints(ConstraintsOf(PASSWORD), value);
  }

  /** A property with a NotBlank and a Length constraint is valid iff its length is in range. */
  lemma TwoConstraints(cs: seq<Constraint>, value: Option<string>)
    requires |cs| == 2 && cs[0].NotBlank? && cs[1].Length? && cs[1].min >= 1
    ensures CheckAll(cs, value) == [] <==> value.Some? && cs[1].min <= |value.value| <= cs[1].max
  {
    assert CheckAll(cs[1..][1..], value) == [];
  }

  /** The email and every other property carry no constraint. */
  lemma UnconstrainedAlwaysValid(field: string, value: Option<string>)
    requires field != FIRST_NAME && field != LAST_NAME && field != PASSWORD
    ensures IsValid(field, value)
  {
  }

  /** A blank name reports both NotBlank and Length; a null one only NotBlank. */
  lemma BlankNameMessages()
    ensures Violations(FIRST_NAME, Some("")) ==
      ["First name can not be blank", "First name must be at least 3 characters long"]
    ensures Violations(FIRST_NAME, None) == ["First name can not be blank"]
    ensures Violations(PASSWORD, Some("abc")) == ["Password must be at least 4 characters long"]
  {
  }
}
