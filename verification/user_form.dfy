/**
 * The `UserFormType` form bound to a `User`: which names it has as
 * children, how submitted text reaches the entity, which child errors exist
 * after submission, and how the service collects them into one message.
 */
module UserForm {
  import opened Wrappers
  import opened Http
  import opened PhpArray
  import opened PhpString
  import opened UserEntity
  import opened UserConstraints

  /** The children of the form, in the order they are added. */
  const CHILDREN: seq<string> :=
    ["id", FIRST_NAME, LAST_NAME, EMAIL, PASSWORD, "dateCreated", "dateUpdated", "imageFile"]

  /** The properties the text children write; the other children are not bound. */
  const TEXT_SLOTS: set<Slot> := {FirstNameSlot, LastNameSlot, EmailSlot, PasswordSlot}

  /** A submitted request body: a PHP array of strings. */
  type Payload = Arr<string>

  predicate IsChild(name: string) {
    name in CHILDREN
  }

  predicate IsTextField(name: string) {
    name == FIRST_NAME || name == LAST_NAME || name == EMAIL || name == PASSWORD
  }

  /** The entity property a text child reads and writes; null for the other names. */
  function FieldText(u: User, name: string): Option<string> {
    if name == FIRST_NAME then u.firstName
    else if name == LAST_NAME then u.lastName
    else if name == EMAIL then u.email
    else if name == PASSWORD then u.password
    else None
  }

  /**
   * The setters that take a non-null `string`: handing them null makes PHP
   * throw. `setPassword` takes `?string` and accepts null.
   */
  predicate TypedText(name: string) {
    name == FIRST_NAME || name == LAST_NAME || name == EMAIL
  }

  /**
   * What a text child hands to the data mapper for a submitted string: the
   * form trims it, and a blank result becomes null.
   */
  function Normalized(value: string): (r: Option<string>)
    ensures r.None? <==> Trim(value) == ""
    ensures r.Some? ==> r.value == Trim(value)
  {
    var t := Trim(value);
    if t == "" then None else Some(t)
  }

  /** The normalised value of a submitted field; null when the key is missing. */
  function Submitted(data: Payload, name: string): Option<string> {
    match Get(data, name)
    case None => None
    case Some(v) => Normalized(v)
  }

  /** What a text property holds after a submission that writes it: the submitted value, or its old one if omitted. */
  function Merged(u: User, data: Payload, name: string): Option<string> {
    if Has(data, name) then Submitted(data, name) else FieldText(u, name)
  }

  /**
   * The data mapper would hand null to a typed setter: the field was
   * submitted blank and the property holds a value. A null over a null is
   * identical and not written.
   */
  predicate RejectsNull(u: User, data: Payload, name: string) {
    TypedText(name) && Has(data, name) && Submitted(data, name).None? && FieldText(u, name).Some?
  }

  /**
   * Writing one submitted value. The password setter takes whatever the
   * child holds, since its getter reads null as "" and so never matches
   * null. A typed setter is called only with a string; its null case is the
   * exception `Submit` throws.
   */
  function BindField(u: User, name: string, value: string): (r: User)
    ensures IsTextField(name) && !(TypedText(name) && Normalized(value).None? && FieldText(u, name).Some?) ==>
      FieldText(r, name) == Normalized(value)
    ensures forall f :: f != name ==> FieldText(r, f) == FieldText(u, f)
    ensures OnlyChanges(u, r, TEXT_SLOTS)
  {
    var v := Normalized(value);
    if name == PASSWORD then SetPassword(u, v)
    else if v.None? then u
    else if name == FIRST_NAME then SetFirstName(u, v.value)
    else if name == LAST_NAME then SetLastName(u, v.value)
    else if name == EMAIL then SetEmail(u, v.value)
    else u
  }

  /**
   * The data mapper writing `data` to a form over `u`: each submitted text
   * field takes its normalised value, every field left out keeps its value.
   */
  function Bind(u: User, data: Payload): (r: User)
    decreases |data|
    ensures forall f :: IsTextField(f) && !RejectsNull(u, data, f) ==> FieldText(r, f) == Merged(u, data, f)
    ensures OnlyChanges(u, r, TEXT_SLOTS)
  {
    if data == [] then u
    else
      var rest: Payload := data[1..];
      var first := BindField(u, data[0].0, data[0].1);
      var r := Bind(first, rest);
      assert forall f :: f != data[0].0 ==> Get(data, f) == Get(rest, f);
      assert !Has(rest, data[0].0) by {
        HasIffInKeys(rest, data[0].0);
        assert forall j :: 0 <= j < |rest| ==> rest[j].0 == data[j + 1].0;
      }
      assert forall f :: f != data[0].0 ==> RejectsNull(u, data, f) == RejectsNull(first, rest, f);
      r
  }

  /** Binding writes only the text properties. */
  lemma BindKeepsOthers(u: User, data: Payload)
    ensures var r := Bind(u, data);
      && r.id == u.id && r.dateCreated == u.dateCreated && r.dateUpdated == u.dateUpdated
      && r.avatar == u.avatar && r.imageFile == u.imageFile
  {
    TextOnly(u, Bind(u, data));
  }

  lemma TextOnly(u: User, r: User)
    requires OnlyChanges(u, r, TEXT_SLOTS)
    ensures r.id == u.id && r.dateCreated == u.dateCreated && r.dateUpdated == u.dateUpdated
    ensures r.avatar == u.avatar && r.imageFile == u.imageFile
  {
    assert SlotValue(r, IdSlot) == SlotValue(u, IdSlot);
    assert SlotValue(r, DateCreatedSlot) == SlotValue(u, DateCreatedSlot);
    assert SlotValue(r, DateUpdatedSlot) == SlotValue(u, DateUpdatedSlot);
    assert SlotValue(r, AvatarSlot) == SlotValue(u, AvatarSlot);
    assert SlotValue(r, ImageFileSlot) == SlotValue(u, ImageFileSlot);
  }

  /** The exception PHP's property accessor raises when a typed setter is handed null. */
  function NullArgument(name: string): Exception {
    FrameworkException("Expected argument of type \"string\", \"null\" given at property path \"" + name + "\".")
  }

  /** The first of `names` the data mapper would hand null to a typed setter. */
  function FirstNullWrite(u: User, data: Payload, names: seq<string>): (r: Option<string>)
    ensures r.None? <==> forall i :: 0 <= i < |names| ==> !RejectsNull(u, data, names[i])
    ensures r.Some? ==>
      exists i :: (0 <= i < |names| && names[i] == r.value && RejectsNull(u, data, names[i])
        && forall j :: 0 <= j < i ==> !RejectsNull(u, data, names[j]))
  {
    if names == [] then None
    else if RejectsNull(u, data, names[0]) then Some(names[0])
    else
      var r := FirstNullWrite(u, data, names[1..]);
      assert forall i :: 1 <= i < |names| ==> names[i] == names[1..][i - 1];
      if r.Some? then
        var i :| 0 <= i < |names[1..]| && names[1..][i] == r.value && RejectsNull(u, data, names[1..][i])
          && forall j :: 0 <= j < i ==> !RejectsNull(u, data, names[1..][j]);
        assert names[i + 1] == names[1..][i];
        r
      else r
  }

  /**
   * `$form->submit($data, ...)` over `u`: the data mapper walks the children
   * in order and throws at the first that would hand null to a typed setter;
   * otherwise the entity is bound.
   */
  function Submit(u: User, data: Payload): (r: Outcome<User>)
    ensures r.Returned? <==> forall f :: IsTextField(f) ==> !RejectsNull(u, data, f)
    ensures r.Returned? ==> r.value == Bind(u, data)
    ensures r.Returned? ==> forall f :: IsTextField(f) ==> FieldText(r.value, f) == Merged(u, data, f)
    ensures r.Threw? ==>
      exists i :: (0 <= i < |CHILDREN| && RejectsNull(u, data, CHILDREN[i])
        && (forall j :: 0 <= j < i ==> !RejectsNull(u, data, CHILDREN[j]))
        && r.error == NullArgument(CHILDREN[i]))
  {
    assert CHILDREN[1] == FIRST_NAME && CHILDREN[2] == LAST_NAME && CHILDREN[3] == EMAIL && CHILDREN[4] == PASSWORD;
    match FirstNullWrite(u, data, CHILDREN)
    case Some(name) => Threw(NullArgument(name))
    case None => Returned(Bind(u, data))
  }

  /** A blank first name over a stored one is where the submission throws, with the setter's message. */
  lemma BlankFirstNameThrows(u: User, data: Payload)
    requires Has(data, FIRST_NAME) && Submitted(data, FIRST_NAME).None? && u.firstName.Some?
    ensures Submit(u, data) == Threw(NullArgument(FIRST_NAME))
  {
    assert CHILDREN[1] == FIRST_NAME && !RejectsNull(u, data, CHILDREN[0]);
    assert RejectsNull(u, data, CHILDREN[1]);
  }

  /** A submitted value without trimmable ends, and not blank, reaches the entity as sent. */
  lemma SubmittedAsSent(data: Payload, name: string, value: string)
    requires Get(data, name) == Some(value) && IsTrimmed(value) && value != ""
    ensures Has(data, name) && Submitted(data, name) == Some(value)
  {
    TrimKeeps(value);
  }

  /** Over a new entity every text property is null, so a submission never throws. */
  lemma FreshSubmitReturns(now: Instant, data: Payload)
    ensures Submit(New(now), data) == Returned(Bind(New(now), data))
  {
    assert forall f :: FieldText(New(now), f) == None;
  }

  /** Binding over a new entity leaves each text property holding its normalised submitted value. */
  lemma FreshBind(now: Instant, data: Payload)
    ensures forall f :: IsTextField(f) ==> FieldText(Bind(New(now), data), f) == Submitted(data, f)
  {
    assert forall f :: FieldText(New(now), f) == None;
  }

  /**
   * A blank submission is null: "" and white space alike. A blank first name
   * over a new entity therefore reports only the NotBlank message.
   */
  lemma BlankIsNull(now: Instant)
    ensures Normalized("") == None && Normalized(" ") == None && Normalized("\t\n") == None
    ensures ChildErrors(Bind(New(now), [(FIRST_NAME, "")]), {FIRST_NAME}, FIRST_NAME) == ["First name can not be blank"]
  {
    assert AllTrimmable(" ") && AllTrimmable("\t\n");
    TrimUnique(" ", "", "");
    TrimUnique("\t\n", "", "");
    assert " " + "" + "" == " " && "\t\n" + "" + "" == "\t\n";
    var data: Payload := [(FIRST_NAME, "")];
    FreshBind(now, data);
    assert Get(data, FIRST_NAME) == Some("");
  }

  /**
   * The errors a child holds after submission: the violations of its
   * property, but only for children that took part in the submission.
   */
  function ChildErrors(u: User, submitted: set<string>, name: string): seq<string> {
    if name in submitted then Violations(name, FieldText(u, name)) else []
  }

  /** `$form->get($name)->isValid()` for an existing child. */
  predicate ChildValid(u: User, submitted: set<string>, name: string) {
    ChildErrors(u, submitted, name) == []
  }

  /** Inner loop of `getErrorMessages`: `$errors[$name] = $message` for each error of one child. */
  function CollectChild(acc: Payload, name: string, errors: seq<string>): Payload
    decreases |errors|
  {
    if errors == [] then acc
    else CollectChild(Put(acc, name, errors[0]), name, errors[1..])
  }

  /** Outer loop of `getErrorMessages` over the children, in order. */
  function CollectChildren(acc: Payload, names: seq<string>, errorsOf: string -> seq<string>): Payload
    decreases |names|
  {
    if names == [] then acc
    else CollectChildren(CollectChild(acc, names[0], errorsOf(names[0])), names[1..], errorsOf)
  }

  /** `getErrorMessages($form)` */
  function ErrorMessages(u: User, submitted: set<string>): Payload {
    CollectChildren([], CHILDREN, name => ChildErrors(u, submitted, name))
  }

  /** The joined message of an invalid form: `implode(", ", getErrorMessages($form))`. */
  function FormErrorMessage(u: User, submitted: set<string>): string {
    Implode(", ", Values(ErrorMessages(u, submitted)))
  }

  /**
   * Reference definition of the collected messages: one entry per child
   * with errors, in child order, holding that child's LAST error.
   */
  function LastErrors(names: seq<string>, errorsOf: string -> seq<string>): seq<(string, string)> {
    if names == [] then []
    else
      var es := errorsOf(names[0]);
      (if es == [] then [] else [(names[0], es[|es| - 1])]) + LastErrors(names[1..], errorsOf)
  }

  /** Overwriting the last entry of an array leaves the prefix alone. */
  lemma {:induction false} PutLast(acc: Payload, name: string, first: string, latest: string)
    requires name !in Keys(acc)
    requires DistinctKeys(acc + [(name, first)])
    ensures Put(acc + [(name, first)], name, latest) == acc + [(name, latest)]
  {
    var a: Payload := acc + [(name, first)];
    if acc == [] {
    } else {
      assert a[0] == acc[0];
      assert a[1..] == acc[1..] + [(name, first)];
      assert Keys(acc) == [acc[0].0] + Keys(acc[1..]);
      var tail: Payload := acc[1..];
      PutLast(tail, name, first, latest);
    }
  }

  /** One child's inner loop leaves exactly its last error behind. */
  lemma {:induction false} CollectChildIsLast(acc: Payload, name: string, errors: seq<string>)
    requires name !in Keys(acc)
    ensures CollectChild(acc, name, errors) ==
      acc + (if errors == [] then [] else [(name, errors[|errors| - 1])])
  {
    if errors != [] {
      PutAppends(acc, name, errors[0]);
      CollectRest(acc, name, errors[0], errors[1..]);
      assert errors[1..] == [] ==> errors[|errors| - 1] == errors[0];
      assert errors[1..] != [] ==> errors[1..][|errors[1..]| - 1] == errors[|errors| - 1];
    }
  }

  /** `Put` of a key not yet present appends it. */
  lemma {:induction false} PutAppends(acc: Payload, name: string, v: string)
    requires name !in Keys(acc)
    ensures Put(acc, name, v) == acc + [(name, v)]
  {
    if acc != [] {
      assert Keys(acc) == [acc[0].0] + Keys(acc[1..]);
      var tail: Payload := acc[1..];
      PutAppends(tail, name, v);
    }
  }

  /** Appending a key the array does not hold keeps its keys distinct. */
  lemma AppendFresh(acc: Payload, name: string, v: string)
    requires name !in Keys(acc)
    ensures DistinctKeys(acc + [(name, v)])
  {
    assert forall i :: 0 <= i < |acc| ==> acc[i].0 == Keys(acc)[i];
  }

  lemma {:induction false} CollectRest(acc: Payload, name: string, first: string, errors: seq<string>)
    requires name !in Keys(acc)
    ensures DistinctKeys(acc + [(name, first)])
    ensures CollectChild(acc + [(name, first)], name, errors) ==
      acc + [(name, if errors == [] then first else errors[|errors| - 1])]
    decreases |errors|
  {
    AppendFresh(acc, name, first);
    if errors != [] {
      PutLast(acc, name, first, errors[0]);
      CollectRest(acc, name, errors[0], errors[1..]);
      assert errors[1..] == [] ==> errors[|errors| - 1] == errors[0];
      assert errors[1..] != [] ==> errors[1..][|errors[1..]| - 1] == errors[|errors| - 1];
    }
  }

  /**
   * `getErrorMessages` keeps one message per child name (the last of that
   * child's errors), in the order of the children.
   */
  lemma {:induction false} CollectChildrenIsLastErrors(acc: Payload, names: seq<string>, errorsOf: string -> seq<string>)
    requires forall i, j :: 0 <= i < j < |names| ==> names[i] != names[j]
    requires forall k :: k in Keys(acc) ==> k !in names
    ensures CollectChildren(acc, names, errorsOf) == acc + LastErrors(names, errorsOf)
    decreases |names|
  {
    if names != [] {
      var es := errorsOf(names[0]);
      var head: seq<(string, string)> := if es == [] then [] else [(names[0], es[|es| - 1])];
      CollectChildIsLast(acc, names[0], es);
      var next := CollectChild(acc, names[0], es);
      assert next == acc + head;
      KeysConcat(acc, head);
      assert names[0] !in names[1..];
      assert forall k :: k in Keys(next) ==> k !in names[1..];
      CollectChildrenIsLastErrors(next, names[1..], errorsOf);
      var rest := LastErrors(names[1..], errorsOf);
      assert CollectChildren(acc, names, errorsOf) == CollectChildren(next, names[1..], errorsOf);
      assert LastErrors(names, errorsOf) == head + rest;
      ConcatAssoc(acc, head, rest);
    }
  }

  lemma ConcatAssoc<T>(a: seq<T>, b: seq<T>, c: seq<T>)
    ensures (a + b) + c == a + (b + c)
  {
  }

  lemma KeysConcat<V>(a: seq<(string, V)>, b: seq<(string, V)>)
    ensures Keys(a + b) == Keys(a) + Keys(b)
  {
  }

  /** Only a child with errors, among the children walked, gets a message. */
  lemma {:induction false} LastErrorsKeys(names: seq<string>, errorsOf: string -> seq<string>)
    ensures forall k :: k in Keys(LastErrors(names, errorsOf)) ==> k in names && errorsOf(k) != []
    decreases |names|
  {
    if names != [] {
      var es := errorsOf(names[0]);
      var head: seq<(string, string)> := if es == [] then [] else [(names[0], es[|es| - 1])];
      LastErrorsKeys(names[1..], errorsOf);
      KeysConcat(head, LastErrors(names[1..], errorsOf));
    }
  }

  lemma ErrorMessagesAreLastErrors(u: User, submitted: set<string>)
    ensures ErrorMessages(u, submitted) ==
      LastErrors(CHILDREN, name => ChildErrors(u, submitted, name))
    ensures FormErrorMessage(u, submitted) ==
      Implode(", ", Values(LastErrors(CHILDREN, name => ChildErrors(u, submitted, name))))
  {
    CollectChildrenIsLastErrors([], CHILDREN, name => ChildErrors(u, submitted, name));
  }

  /** What the validation loop throws for an offending submitted name. */
  function Rejection(u: User, submitted: set<string>, name: string): Exception {
    if !IsChild(name) then FrameworkException("Child \"" + name + "\" does not exist.")
    else HttpException(HTTP_BAD_REQUEST, FormErrorMessage(u, submitted))
  }

  /** A submitted name passes the loop when it is a child and that child is valid. */
  predicate Acceptable(u: User, submitted: set<string>, name: string) {
    IsChild(name) && ChildValid(u, submitted, name)
  }

  /**
   * `foreach ($data as $field => $value) if (!$form->get($field)->isValid()) throw ...`:
   * passes iff every submitted name is acceptable, and otherwise throws for
   * the FIRST name, in submission order, that is not.
   */
  function CheckFields(names: seq<string>, u: User, submitted: set<string>): (r: Option<Exception>)
    ensures r.None? <==> forall i :: 0 <= i < |names| ==> Acceptable(u, submitted, names[i])
    ensures r.Some? ==>
      exists i :: (0 <= i < |names| && !Acceptable(u, submitted, names[i])
        && (forall j :: 0 <= j < i ==> Acceptable(u, submitted, names[j]))
        && r.value == Rejection(u, submitted, names[i]))
  {
    if names == [] then None
    else if !Acceptable(u, submitted, names[0]) then Some(Rejection(u, submitted, names[0]))
    else
      var r := CheckFields(names[1..], u, submitted);
      assert forall i :: 1 <= i < |names| ==> names[i] == names[1..][i - 1];
      if r.Some? then
        var i :| 0 <= i < |names[1..]| && !Acceptable(u, submitted, names[1..][i])
          && (forall j :: 0 <= j < i ==> Acceptable(u, submitted, names[1..][j]))
          && r.value == Rejection(u, submitted, names[1..][i]);
        assert names[i + 1] == names[1..][i];
        r
      else r
  }
}
