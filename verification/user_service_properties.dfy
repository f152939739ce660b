/**
 * Properties that relate several service calls: what a registration makes
 * visible to the later calls, what an update does and does not check, and
 * how the listing pages cover the store.
 */
module UserServiceProperties {
  import opened Wrappers
  import opened Http
  import opened PhpArray
  import opened PhpString
  import opened UserEntity
  import opened UserConstraints
  import opened UserForm
  import opened UserStore
  import opened UserService

  /** The user a successful registration inserted. */
  function NewUser(s: Store, r: Store): User
    requires s.nextId in r.users
  {
    r.users[s.nextId]
  }

  /**
   * A successful registration submitted a password whose trimmed form has 4
   * to 50 characters; the password as sent has at least 4.
   */
  lemma {:induction false} RegisteredPasswordIsValid(s: Store, data: Payload)
    requires Registrable(s, data)
    ensures Has(data, PASSWORD)
    ensures 4 <= |Trim(Get(data, PASSWORD).value)| <= 50
    ensures 4 <= |Get(data, PASSWORD).value|
  {
    HasIffAt(data, PASSWORD);
    var i :| 0 <= i < |data| && data[i].0 == PASSWORD;
    GetAt(data, i);
    assert FieldAccepted(data[i].0, data[i].1);
    PasswordValidIff(Normalized(data[i].1));
  }

  /**
   * The newly registered user can verify with the password it registered
   * with, provided the encoder recognises what it encoded; the store holds
   * the encoding, not the password.
   */
  lemma {:induction false} RegisterThenVerifyPassword(s: Store, data: Payload, file: Option<File>, enc: Encoder, now: Instant)
    requires Valid(s) && Sound(enc) && Registrable(s, data)
    ensures Register(s, Json(data), file, enc, now).Returned?
    ensures var r := Register(s, Json(data), file, enc, now).value;
      var plain := Get(data, PASSWORD).value;
      && NewUser(s, r).password == Some(enc.encode(plain))
      && VerifyPassword(Some(NewUser(s, r)), Json([(PASSWORD, plain)]), enc) == Returned(Reply(HTTP_OK, SUCCESS))
  {
    var r := Register(s, Json(data), file, enc, now).value;
    var plain := Get(data, PASSWORD).value;
    RegisteredPasswordIsValid(s, data);
    VerifyEncoded(NewUser(s, r), plain, enc);
  }

  /** A user whose stored password encodes `plain` verifies with `plain`. */
  lemma VerifyEncoded(u: User, plain: string, enc: Encoder)
    requires Sound(enc) && u.password == Some(enc.encode(plain)) && !IsEmpty(plain)
    ensures VerifyPassword(Some(u), Json([(PASSWORD, plain)]), enc) == Returned(Reply(HTTP_OK, SUCCESS))
  {
    var req: Payload := [(PASSWORD, plain)];
    assert Get(req, PASSWORD) == Some(plain);
    assert enc.isValid(enc.encode(plain), plain);
  }

  /**
   * Registering a second time with the same non-empty email, sent without
   * surrounding white space, is refused with the uniqueness message before
   * any validation.
   */
  lemma {:induction false} RegisterSameEmailTwice(s: Store, first: Payload, second: Payload, file: Option<File>, file2: Option<File>, enc: Encoder, now: Instant, later: Instant)
    requires Valid(s) && Registrable(s, first)
    requires Get(second, EMAIL) == Get(first, EMAIL) && !IsEmptyOpt(Get(first, EMAIL))
    requires Trim(Get(first, EMAIL).value) == Get(first, EMAIL).value
    ensures Register(s, Json(first), file, enc, now).Returned?
    ensures var r := Register(s, Json(first), file, enc, now).value;
      Register(r, Json(second), file2, enc, later) == Threw(HttpException(HTTP_BAD_REQUEST, EMAIL_TAKEN))
  {
    var r := Register(s, Json(first), file, enc, now).value;
    assert r.users[s.nextId].email == Get(first, EMAIL);
    assert EmailTaken(r, Get(first, EMAIL).value);
  }

  /**
   * The uniqueness check compares the email as sent, but the row stores it
   * trimmed. An email sent with surrounding white space therefore never
   * matches a stored one: the same registration succeeds twice and leaves
   * two rows with one email.
   */
  lemma {:induction false} PaddedEmailRegistersTwice(s: Store, data: Payload, file: Option<File>, enc: Encoder, now: Instant, later: Instant)
    requires Valid(s) && Registrable(s, data)
    requires Has(data, EMAIL) && Trim(Get(data, EMAIL).value) != Get(data, EMAIL).value
    ensures Register(s, Json(data), file, enc, now).Returned?
    ensures var r := Register(s, Json(data), file, enc, now).value;
      var r2 := Register(r, Json(data), file, enc, later);
      && r2.Returned?
      && s.nextId in r2.value.users && r.nextId in r2.value.users && s.nextId != r.nextId
      && r2.value.users[s.nextId].email == r2.value.users[r.nextId].email == Some(Trim(Get(data, EMAIL).value))
  {
    var raw := Get(data, EMAIL).value;
    var r := Register(s, Json(data), file, enc, now).value;
    assert r.users[s.nextId].email == Some(Trim(raw));
    assert !EmailTaken(s, raw);
    assert !EmailTaken(r, raw) by {
      forall id | id in r.users
        ensures r.users[id].email != Some(raw)
      {
        if id in s.users {
          assert r.users[id] == s.users[id];
        }
      }
    }
    assert Registrable(r, data);
    var r2 := Register(r, Json(data), file, enc, later).value;
    assert r2.users[s.nextId] == r.users[s.nextId];
  }

  /**
   * `empty("0")` holds in PHP, so the email "0" is never checked for
   * uniqueness: the same registration succeeds again.
   */
  lemma {:induction false} EmailZeroRegistersTwice(s: Store, data: Payload, file: Option<File>, enc: Encoder, now: Instant, later: Instant)
    requires Valid(s) && Registrable(s, data)
    requires Get(data, EMAIL) == Some("0")
    ensures Register(s, Json(data), file, enc, now).Returned?
    ensures var r := Register(s, Json(data), file, enc, now).value;
      && EmailTaken(r, "0")
      && Register(r, Json(data), file, enc, later).Returned?
  {
    TrimKeeps("0");
    var r := Register(s, Json(data), file, enc, now).value;
    assert r.users[s.nextId].email == Some("0");
  }

  /** The id the edit endpoint needs to find user `id`. */
  function IdParams(key: string, id: nat): Payload {
    [(key, ShowNat(id))]
  }

  lemma {:induction false} IdParamsFind(s: Store, key: string, id: nat)
    requires id >= 1
    ensures Get(IdParams(key, id), key) == Some(ShowNat(id))
    ensures !IsEmpty(ShowNat(id))
    ensures Lookup(s, ShowNat(id)) == FindById(s, id)
  {
    ParseShow(id);
    assert ShowNat(id)[0] != '0';
  }

  /**
   * A registered user can be fetched by its new id, with the submitted names
   * and email; without an uploaded file it has no avatar.
   */
  lemma {:induction false} RegisterThenEdit(s: Store, data: Payload, file: Option<File>, enc: Encoder, now: Instant)
    requires Valid(s) && Registrable(s, data)
    ensures Register(s, Json(data), file, enc, now).Returned?
    ensures var r := Register(s, Json(data), file, enc, now).value;
      var reply := EditUser(r, Json(IdParams(USER_ID_KEY, s.nextId)));
      && reply.Returned?
      && reply.value.status == HTTP_OK
      && reply.value.message == SUCCESS
      && reply.value.data.Profile?
      && reply.value.data.user.id == Some(s.nextId)
      && reply.value.data.user.firstName == Submitted(data, FIRST_NAME)
      && reply.value.data.user.lastName == Submitted(data, LAST_NAME)
      && reply.value.data.user.email == Submitted(data, EMAIL)
      && (file.None? ==> reply.value.data.user.avatar == None)
  {
    var r := Register(s, Json(data), file, enc, now).value;
    IdParamsFind(r, USER_ID_KEY, s.nextId);
  }

  /**
   * What an update of a known id does, spelled out for the lemmas below: it
   * succeeds exactly when every text property ends non-null.
   */
  lemma {:induction false} UpdateFound(s: Store, data: Payload, file: Option<File>, now: Instant, id: nat)
    requires Valid(s) && id in s.users
    requires Get(data, ID_KEY) == Some(ShowNat(id))
    ensures var r := UpdateUser(s, Json(data), file, now);
      && s.users[id].id == Some(id)
      && (r.Returned? <==> Updatable(s.users[id], data))
      && (r.Returned? ==> r.value.0 == Reply(HTTP_OK, DATA_UPDATED) && Updated(s, r.value.1, s.users[id], data, file, now))
      && (r.Threw? ==> r.error.FrameworkException?)
  {
    IdParamsFind(s, ID_KEY, id);
    assert Lookup(s, ShowNat(id)) == Some(s.users[id]);
  }

  /** The row a successful update of a known id leaves, field by field, with every other row kept. */
  lemma {:induction false} UpdateFoundRow(s: Store, data: Payload, file: Option<File>, now: Instant, id: nat) returns (r: Store)
    requires Valid(s) && id in s.users
    requires Get(data, ID_KEY) == Some(ShowNat(id)) && Updatable(s.users[id], data)
    ensures UpdateUser(s, Json(data), file, now) == Returned((Reply(HTTP_OK, DATA_UPDATED), r))
    ensures id in r.users && r.users.Keys == s.users.Keys
    ensures forall other :: other in s.users && other != id ==> r.users[other] == s.users[other]
    ensures var u := s.users[id];
      var n := r.users[id];
      && n.firstName == Merged(u, data, FIRST_NAME) && n.lastName == Merged(u, data, LAST_NAME)
      && n.email == Merged(u, data, EMAIL) && n.password == Merged(u, data, PASSWORD)
      && n.dateCreated == u.dateCreated
      && n.dateUpdated == (if file.Some? then Some(now) else u.dateUpdated)
  {
    UpdateFound(s, data, file, now, id);
    r := UpdateUser(s, Json(data), file, now).value.1;
    UpdatedRow(s, r, s.users[id], data, file, now);
  }

  /**
   * An update that can be saved answers 200 and stores the submitted name
   * even when it breaks the constraints.
   */
  lemma {:induction false} UpdateDoesNotValidate(s: Store, data: Payload, file: Option<File>, now: Instant, id: nat)
    requires Valid(s) && id in s.users
    requires Get(data, ID_KEY) == Some(ShowNat(id))
    requires Get(data, FIRST_NAME) == Some("ab") && Updatable(s.users[id], data)
    ensures var r := UpdateUser(s, Json(data), file, now);
      && r.Returned?
      && r.value.0 == Reply(HTTP_OK, DATA_UPDATED)
      && r.value.1.users[id].firstName == Some("ab")
      && !IsValid(FIRST_NAME, r.value.1.users[id].firstName)
  {
    var r := UpdateFoundRow(s, data, file, now, id);
    SubmittedAsSent(data, FIRST_NAME, "ab");
    NameValidIff(FIRST_NAME, Some("ab"));
  }

  /** An update stores a submitted password as the form normalised it: trimmed, and not encoded. */
  lemma {:induction false} UpdateStoresPasswordAsSubmitted(s: Store, data: Payload, file: Option<File>, now: Instant, id: nat)
    requires Valid(s) && id in s.users
    requires Get(data, ID_KEY) == Some(ShowNat(id))
    requires Has(data, PASSWORD) && Updatable(s.users[id], data)
    ensures UpdateUser(s, Json(data), file, now).Returned?
    ensures UpdateUser(s, Json(data), file, now).value.1.users[id].password == Some(Trim(Get(data, PASSWORD).value))
  {
    var r := UpdateFoundRow(s, data, file, now, id);
  }

  /** Update does not re-check uniqueness: it can give a second row an email that is taken. */
  lemma {:induction false} UpdateAllowsDuplicateEmail(s: Store, data: Payload, file: Option<File>, now: Instant, id: nat, other: int)
    requires Valid(s) && id in s.users && other in s.users && other != id
    requires Get(data, ID_KEY) == Some(ShowNat(id)) && Updatable(s.users[id], data)
    requires s.users[other].email.Some? && Get(data, EMAIL) == s.users[other].email
    requires Trim(s.users[other].email.value) == s.users[other].email.value
    ensures UpdateUser(s, Json(data), file, now).Returned?
    ensures var r := UpdateUser(s, Json(data), file, now).value.1;
      r.users[id].email == r.users[other].email
  {
    var r := UpdateFoundRow(s, data, file, now, id);
    TrimKeeps(s.users[other].email.value);
  }

  /** A field left out of a successful update keeps its stored value. */
  lemma {:induction false} UpdateKeepsOmittedFields(s: Store, data: Payload, file: Option<File>, now: Instant, id: nat, field: string)
    requires Valid(s) && id in s.users
    requires Get(data, ID_KEY) == Some(ShowNat(id)) && Updatable(s.users[id], data)
    requires IsTextField(field) && !Has(data, field)
    ensures UpdateUser(s, Json(data), file, now).Returned?
    ensures FieldText(UpdateUser(s, Json(data), file, now).value.1.users[id], field) == FieldText(s.users[id], field)
  {
    var r := UpdateFoundRow(s, data, file, now, id);
  }

  /**
   * A blank text field fails an update: the submission hands null to the
   * setter, and for the password the flush meets a null NOT NULL column. A
   * blank first name over a stored one fails with the setter's message.
   */
  lemma {:induction false} UpdateBlankFieldFails(s: Store, data: Payload, file: Option<File>, now: Instant, id: nat, field: string)
    requires Valid(s) && id in s.users
    requires Get(data, ID_KEY) == Some(ShowNat(id))
    requires IsTextField(field) && Get(data, field) == Some("")
    ensures var r := UpdateUser(s, Json(data), file, now);
      && r.Threw? && r.error.FrameworkException?
      && (field == FIRST_NAME && s.users[id].firstName.Some? ==> r == Threw(NullArgument(FIRST_NAME)))
  {
    UpdateFound(s, data, file, now, id);
    assert Has(data, field) && Submitted(data, field) == None;
    assert !Updatable(s.users[id], data);
    if field == FIRST_NAME && s.users[id].firstName.Some? {
      BlankFirstNameThrows(s.users[id], data);
      UpdateFoundThrows(s, data, file, now, id);
    }
  }

  /** An update of a known id whose submission throws fails with that exception. */
  lemma {:induction false} UpdateFoundThrows(s: Store, data: Payload, file: Option<File>, now: Instant, id: nat)
    requires Valid(s) && id in s.users
    requires Get(data, ID_KEY) == Some(ShowNat(id)) && Submit(s.users[id], data).Threw?
    ensures UpdateUser(s, Json(data), file, now) == Threw(Submit(s.users[id], data).error)
  {
    IdParamsFind(s, ID_KEY, id);
    assert Lookup(s, ShowNat(id)) == Some(s.users[id]);
  }

  /** Every row carries ordered creation and update dates. */
  ghost predicate DatesOrderedEverywhere(s: Store) {
    forall id :: id in s.users ==> DatesOrdered(s.users[id])
  }

  /**
   * Registration keeps every row's dates ordered: the new row was created and
   * updated at once. This rests on two choices of the model: one clock
   * reading per request (the constructor reads the clock twice and
   * `setImageFile` once more), and the date children of the form never being
   * written (a submit with missing fields cleared hands them null).
   */
  lemma {:induction false} RegisterKeepsDatesOrdered(s: Store, body: Decoded<Payload>, file: Option<File>, enc: Encoder, now: Instant)
    requires Valid(s) && DatesOrderedEverywhere(s)
    ensures Register(s, body, file, enc, now).Returned? ==>
      DatesOrderedEverywhere(Register(s, body, file, enc, now).value)
  {
    if Register(s, body, file, enc, now).Returned? {
      var r := Register(s, body, file, enc, now).value;
      assert Registered(s, r, body.value, file, enc, now);
      forall id | id in r.users
        ensures DatesOrdered(r.users[id])
      {
        if id in s.users {
          assert r.users[id] == s.users[id];
        } else {
          assert id == s.nextId;
        }
      }
    }
  }

  /**
   * Update keeps every row's dates ordered when the clock reading is no
   * earlier than the updated row's last change.
   */
  lemma {:induction false} UpdateKeepsDatesOrdered(s: Store, data: Payload, file: Option<File>, now: Instant, id: nat)
    requires Valid(s) && DatesOrderedEverywhere(s) && id in s.users
    requires Get(data, ID_KEY) == Some(ShowNat(id))
    requires s.users[id].dateUpdated.Some? ==> s.users[id].dateUpdated.value <= now
    ensures UpdateUser(s, Json(data), file, now).Returned? ==>
      DatesOrderedEverywhere(UpdateUser(s, Json(data), file, now).value.1)
  {
    UpdateFound(s, data, file, now, id);
    if UpdateUser(s, Json(data), file, now).Returned? {
      var r := UpdateFoundRow(s, data, file, now, id);
      assert DatesOrdered(s.users[id]);
      assert DatesOrdered(r.users[id]);
    }
  }

  /**
   * A registration whose email is blank gets past the uniqueness check and
   * the validation loop (the email has no constraint) and fails at the
   * flush: the column is NOT NULL.
   */
  lemma {:induction false} BlankEmailFailsAtFlush(s: Store, data: Payload, file: Option<File>, enc: Encoder, now: Instant)
    requires Valid(s) && AllAccepted(data) && Has(data, PASSWORD)
    requires Get(data, EMAIL) == Some("")
    ensures Register(s, Json(data), file, enc, now) == Threw(FrameworkException(NULL_COLUMN))
  {
    assert !EmailBlocked(s, data);
    assert Submitted(data, EMAIL) == None;
    var bound := Bind(New(now), data);
    FreshBind(now, data);
    var plain := Get(data, PASSWORD).value;
    PreparedRow(bound, data, file, enc, now, plain);
  }

  /** Position `i` of the listing falls on page `i / perPage + 1`, which is within the page count. */
  lemma {:induction false} PageOfPosition(i: nat, perPage: int, total: nat)
    requires perPage > 0 && i < total
    ensures var page := i / perPage + 1;
      && Offset(page, perPage) <= i < Offset(page, perPage) + perPage
      && page <= CeilDiv(total, perPage)
  {
    var page := i / perPage + 1;
    var offset := (page - 1) * perPage;
    assert offset == (i / perPage) * perPage;
    assert i == (i / perPage) * perPage + i % perPage;
    var pages := CeilDiv(total, perPage);
    if page > pages {
      assert pages <= page - 1;
      MulMonotone(pages, page - 1, perPage);
      assert false;
    }
  }

  lemma MulMonotone(a: int, b: int, c: int)
    requires a <= b && c > 0
    ensures a * c <= b * c
  {
  }

  /** Position `i` of the id order is shown on page `i / perPage + 1`, within the page count. */
  lemma {:induction false} PositionInListing(s: Store, perPage: int, i: int) returns (page: int)
    requires Valid(s) && perPage > 0 && 0 <= i < |IdsInOrder(s)|
    ensures page == i / perPage + 1
    ensures 1 <= page <= CeilDiv(|s.users|, perPage)
    ensures Project(s.users[IdsInOrder(s)[i]]) in UserList(s, page, perPage).data
  {
    OrderCoversStore(s);
    PageOfPosition(i, perPage, |s.users|);
    page := i / perPage + 1;
    ListedAt(s, page, perPage, i);
  }

  /** The user at position `i` of the id order is on the page whose offset range holds `i`. */
  lemma ListedAt(s: Store, page: int, perPage: int, i: int)
    requires Valid(s) && page >= 1 && perPage > 0 && 0 <= i < |IdsInOrder(s)|
    requires Offset(page, perPage) <= i < Offset(page, perPage) + perPage
    ensures Project(s.users[IdsInOrder(s)[i]]) in UserList(s, page, perPage).data
  {
    OrderCoversStore(s);
    var listing := UserList(s, page, perPage);
    assert 0 <= i - Offset(page, perPage) < |listing.data|;
    assert listing.data[i - Offset(page, perPage)] == Project(s.users[IdsInOrder(s)[i]]);
  }

  /** Every stored id has a position in the id order. */
  lemma PositionOf(s: Store, id: int) returns (i: int)
    requires Valid(s) && id in s.users
    ensures 0 <= i < |IdsInOrder(s)| && IdsInOrder(s)[i] == id
  {
    OrderCoversStore(s);
    i :| 0 <= i < |IdsInOrder(s)| && IdsInOrder(s)[i] == id;
  }

  /** Every user appears on some page between 1 and `total_pages`. */
  lemma {:induction false} ListCoversEveryUser(s: Store, perPage: int, id: int)
    requires Valid(s) && perPage > 0 && id in s.users
    ensures exists page ::
      (1 <= page <= UserList(s, 1, perPage).totalPages
       && Project(s.users[id]) in UserList(s, page, perPage).data)
  {
    var i := PositionOf(s, id);
    var page := PositionInListing(s, perPage, i);
    assert UserList(s, 1, perPage).totalPages == CeilDiv(|s.users|, perPage);
  }

  /** The page count for the documented example: 25 users, 10 per page. */
  lemma PageCountExample()
    ensures CeilDiv(25, 10) == 3
    ensures CeilDiv(0, 10) == 0
    ensures CeilDiv(30, 10) == 3
  {
  }
}
