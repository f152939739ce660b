/**
 * A worked registration: a short first name, an email and nothing else,
 * followed from the bound entity through each child's errors to the
 * message the 400 reply carries.
 */
module UserServiceExamples {
  import opened Wrappers
  import opened Http
  import opened PhpArray
  import opened PhpString
  import opened UserEntity
  import opened UserConstraints
  import opened UserForm
  import opened UserStore
  import opened UserService

  /** The three messages a short first name with no last name and no password collects, joined. */
  const SHORT_NAME_MESSAGE: string :=
    "First name must be at least 3 characters long" + ", " + "Last name can not be blank" + ", " + "Password can not be blank"

  lemma FirstNameErrors(u: User)
    requires u.firstName == Some("ab")
    ensures ChildErrors(u, AllChildren(), FIRST_NAME) == ["First name must be at least 3 characters long"]
  {
    assert FieldText(u, FIRST_NAME) == Some("ab");
    assert FIRST_NAME in AllChildren();
    assert Violations(FIRST_NAME, Some("ab")) == ["First name must be at least 3 characters long"];
  }

  lemma LastNameErrors(u: User)
    requires u.lastName == None
    ensures ChildErrors(u, AllChildren(), LAST_NAME) == ["Last name can not be blank"]
  {
    assert FieldText(u, LAST_NAME) == None;
    assert LAST_NAME in AllChildren();
    assert Violations(LAST_NAME, None) == ["Last name can not be blank"];
  }

  lemma PasswordErrors(u: User)
    requires u.password == None
    ensures ChildErrors(u, AllChildren(), PASSWORD) == ["Password can not be blank"]
  {
    assert FieldText(u, PASSWORD) == None;
    assert PASSWORD in AllChildren();
    assert Violations(PASSWORD, None) == ["Password can not be blank"];
  }

  lemma UnconstrainedErrors(u: User, name: string)
    requires name in {"id", EMAIL, "dateCreated", "dateUpdated", "imageFile"}
    ensures ChildErrors(u, AllChildren(), name) == []
  {
    UnconstrainedAlwaysValid(name, FieldText(u, name));
  }

  lemma LastErrorsExample(errs: string -> seq<string>)
    requires errs("id") == [] && errs(EMAIL) == []
    requires errs("dateCreated") == [] && errs("dateUpdated") == [] && errs("imageFile") == []
    requires errs(FIRST_NAME) == ["First name must be at least 3 characters long"]
    requires errs(LAST_NAME) == ["Last name can not be blank"]
    requires errs(PASSWORD) == ["Password can not be blank"]
    ensures Values(LastErrors(CHILDREN, errs)) ==
      ["First name must be at least 3 characters long", "Last name can not be blank", "Password can not be blank"]
  {
    var expected := [(FIRST_NAME, "First name must be at least 3 characters long"),
                     (LAST_NAME, "Last name can not be blank"),
                     (PASSWORD, "Password can not be blank")];
    var c := CHILDREN;
    assert LastErrors(c[8..], errs) == [];
    assert LastErrors(c[7..], errs) == [] by { assert c[7..][1..] == c[8..]; }
    assert LastErrors(c[6..], errs) == [] by { assert c[6..][1..] == c[7..]; }
    assert LastErrors(c[5..], errs) == [] by { assert c[5..][1..] == c[6..]; }
    assert LastErrors(c[4..], errs) == expected[2..] by { assert c[4..][1..] == c[5..]; }
    assert LastErrors(c[3..], errs) == expected[2..] by { assert c[3..][1..] == c[4..]; }
    assert LastErrors(c[2..], errs) == expected[1..] by { assert c[2..][1..] == c[3..]; }
    assert LastErrors(c[1..], errs) == expected by { assert c[1..][1..] == c[2..]; }
    assert LastErrors(c, errs) == expected by { assert c[1..] == c[1..]; }
  }

  lemma ImplodeExample()
    ensures Implode(", ", ["First name must be at least 3 characters long", "Last name can not be blank", "Password can not be blank"])
      == SHORT_NAME_MESSAGE
  {
    var parts := ["First name must be at least 3 characters long", "Last name can not be blank", "Password can not be blank"];
    assert parts[1..][1..] == [parts[2]];
    assert Implode(", ", parts[1..][1..]) == parts[2];
    assert Implode(", ", parts[1..]) == parts[1] + ", " + parts[2];
    assert Implode(", ", parts) == parts[0] + ", " + (parts[1] + ", " + parts[2]);
  }

  lemma MessageForFields(u: User)
    requires u.firstName == Some("ab") && u.lastName == None && u.password == None
    ensures FormErrorMessage(u, AllChildren()) == SHORT_NAME_MESSAGE
  {
    var errs := name => ChildErrors(u, AllChildren(), name);
    ErrorMessagesAreLastErrors(u, AllChildren());
    FirstNameErrors(u);
    LastNameErrors(u);
    PasswordErrors(u);
    UnconstrainedErrors(u, "id");
    UnconstrainedErrors(u, EMAIL);
    UnconstrainedErrors(u, "dateCreated");
    UnconstrainedErrors(u, "dateUpdated");
    UnconstrainedErrors(u, "imageFile");
    LastErrorsExample(errs);
    ImplodeExample();
  }

  /** The example submission: a two-letter first name and an email. */
  const SHORT_NAME_DATA: Payload := [(FIRST_NAME, "ab"), (EMAIL, "a@b.c")]

  /** What the example submits for each text field. */
  lemma ShortNameFields()
    ensures Get(SHORT_NAME_DATA, FIRST_NAME) == Some("ab") && Get(SHORT_NAME_DATA, EMAIL) == Some("a@b.c")
    ensures Get(SHORT_NAME_DATA, LAST_NAME) == None && Get(SHORT_NAME_DATA, PASSWORD) == None
  {
    var data: Payload := [(FIRST_NAME, "ab"), (EMAIL, "a@b.c")];
    assert data == SHORT_NAME_DATA;
    assert data[1..][1..] == [];
    assert data[1..][0].0 == EMAIL;
    assert Get(data[1..][1..], PASSWORD) == None;
    assert Get(data[1..], LAST_NAME) == None;
    assert Get(data[1..], PASSWORD) == None;
  }

  /** Bound over a new entity, the example leaves the first name short and the last name and password null. */
  lemma ShortNameBound(now: Instant)
    ensures var u := Bind(New(now), SHORT_NAME_DATA);
      u.firstName == Some("ab") && u.lastName == None && u.password == None
  {
    var u := Bind(New(now), SHORT_NAME_DATA);
    ShortNameFields();
    FreshBind(now, SHORT_NAME_DATA);
    SubmittedAsSent(SHORT_NAME_DATA, FIRST_NAME, "ab");
    assert FieldText(u, FIRST_NAME) == Some("ab");
    assert FieldText(u, LAST_NAME) == None;
    assert FieldText(u, PASSWORD) == None;
  }

  /** The example's email is free in an empty table, and its first field is the one rejected. */
  lemma ShortNameRejected()
    ensures !EmailBlocked(EMPTY, SHORT_NAME_DATA) && !AllAccepted(SHORT_NAME_DATA)
    ensures forall i :: FirstRejected(SHORT_NAME_DATA, i) <==> i == 0
  {
    var data: Payload := [(FIRST_NAME, "ab"), (EMAIL, "a@b.c")];
    assert data == SHORT_NAME_DATA;
    assert Get(data, EMAIL) == Some("a@b.c");
    assert !FieldAccepted(data[0].0, data[0].1) by {
      SubmittedAsSent(data, FIRST_NAME, "ab");
      NameValidIff(FIRST_NAME, Some("ab"));
    }
    assert FirstRejected(data, 0);
  }

  lemma ShortNameMessage(enc: Encoder, now: Instant)
    ensures Register(EMPTY, Json(SHORT_NAME_DATA), None, enc, now) == Threw(HttpException(HTTP_BAD_REQUEST, SHORT_NAME_MESSAGE))
  {
    ShortNameBound(now);
    MessageForFields(Bind(New(now), SHORT_NAME_DATA));
    ShortNameRejected();
  }
}
