/**
 * `UserService`: listing, registration, lookup, update and password
 * verification over the user table, each as a pure function of the store,
 * the decoded request and the outside world (clock, password encoder,
 * session user) passed in.
 */
module UserService {
  import opened Wrappers
  import opened Http
  import opened PhpArray
  import opened PhpString
  import opened UserEntity
  import opened UserConstraints
  import opened UserForm
  import opened UserStore

  /** Directory prefixed to a stored avatar file name when it is shown. */
  const AVATAR_PATH: string := "public/uploads/users/"

  const EMAIL_TAKEN: string := "User with this email Id already registered"
  const USER_ID_REQUIRED: string := "User ID is required"
  const USER_NOT_FOUND: string := "User not found"
  const SUCCESS: string := "Success"
  const DATA_UPDATED: string := "Data updated successfully"
  const NO_SESSION_USER: string := "JWT token not found"
  const PASSWORD_REQUIRED: string := "Password is required"
  const WRONG_PASSWORD: string := "You have entered a wrong password"

  /** What PHP reports when `$data['password']` is read but was never submitted. */
  const UNDEFINED_PASSWORD_KEY: string := "Warning: Undefined array key \"password\""
  /** What the database reports when a NOT NULL column is flushed as null. */
  const NULL_COLUMN: string := "Integrity constraint violation: column cannot be null"

  /** The password encoder: a one-way `encode` and the matching `isValid(hash, raw)` check. */
  datatype Encoder = Encoder(encode: string -> string, isValid: (string, string) -> bool)

  /** An encoder that recognises every password it has encoded. */
  ghost predicate Sound(enc: Encoder) {
    forall raw :: enc.isValid(enc.encode(raw), raw)
  }

  /** The public shape of a user in the listing and in the edit response. */
  datatype PublicUser = PublicUser(
    id: Option<int>,
    firstName: Option<string>,
    lastName: Option<string>,
    email: Option<string>,
    avatar: Option<string>)

  /** The `data` field of the edit response: the string "" or a user. */
  datatype EditData = EmptyText | Profile(user: PublicUser)

  datatype Listing = Listing(page: int, perPage: int, total: nat, totalPages: int, data: seq<PublicUser>)
  datatype Reply = Reply(status: int, message: string)
  datatype EditReply = EditReply(status: int, message: string, data: EditData)

  /** The avatar as shown: prefixed with the upload directory unless `empty()`. */
  function AvatarUrl(avatar: Option<string>): Option<string> {
    if IsEmptyOpt(avatar) then avatar else Some(AVATAR_PATH + avatar.value)
  }

  /** Inverse of `AvatarUrl`: the stored name behind a shown avatar. */
  function StoredAvatar(shown: Option<string>): Option<string> {
    if shown.Some? && |shown.value| > |AVATAR_PATH| && shown.value[..|AVATAR_PATH|] == AVATAR_PATH
    then Some(shown.value[|AVATAR_PATH|..])
    else shown
  }

  /**
   * Showing an avatar prefixes the directory exactly once, and the stored
   * name can always be read back from what is shown.
   */
  lemma AvatarRoundTrip(avatar: Option<string>)
    ensures StoredAvatar(AvatarUrl(avatar)) == avatar
    ensures !IsEmptyOpt(avatar) ==> AvatarUrl(avatar) == Some(AVATAR_PATH + avatar.value)
    ensures IsEmptyOpt(avatar) ==> AvatarUrl(avatar) == avatar
  {
    if !IsEmptyOpt(avatar) {
      var shown := AVATAR_PATH + avatar.value;
      assert shown[..|AVATAR_PATH|] == AVATAR_PATH;
      assert shown[|AVATAR_PATH|..] == avatar.value;
    }
  }

  function Project(u: User): PublicUser {
    PublicUser(u.id, u.firstName, u.lastName, u.email, AvatarUrl(u.avatar))
  }

  /** The public projection of each user of a page, in order. */
  function ProjectAll(users: seq<User>): (r: seq<PublicUser>)
    ensures |r| == |users|
    ensures forall j :: 0 <= j < |r| ==> r[j] == Project(users[j])
  {
    seq(|users|, j requires 0 <= j < |users| => Project(users[j]))
  }

  /** `ceil($total / $perPage)` on integers. */
  function CeilDiv(total: nat, perPage: int): (pages: nat)
    requires perPage > 0
    ensures pages * perPage >= total
    ensures (pages - 1) * perPage < total
  {
    var q := (total + perPage - 1) / perPage;
    assert q * perPage + (total + perPage - 1) % perPage == total + perPage - 1;
    assert (q - 1) * perPage == q * perPage - perPage;
    q
  }

  /** `getOffset($page, $perPage)` */
  function Offset(page: int, perPage: int): nat
    requires page >= 1 && perPage > 0
  {
    (page - 1) * perPage
  }

  /**
   * `userList`: page and page size come already normalised by the pager;
   * the page holds the users at positions offset.. in id order, projected.
   */
  function UserList(s: Store, page: int, perPage: int): (r: Listing)
    requires Valid(s) && page >= 1 && perPage > 0
    ensures r.page == page && r.perPage == perPage
    ensures r.total == |s.users|
    ensures r.totalPages == CeilDiv(r.total, perPage)
    ensures r.totalPages * perPage >= r.total && (r.totalPages - 1) * perPage < r.total
    ensures |r.data| <= perPage
    ensures Offset(page, perPage) < r.total ==>
      |r.data| == (if Offset(page, perPage) + perPage > r.total then r.total - Offset(page, perPage) else perPage)
    ensures forall j :: 0 <= j < |r.data| ==>
      Offset(page, perPage) + j < |IdsInOrder(s)|
      && r.data[j] == Project(s.users[IdsInOrder(s)[Offset(page, perPage) + j]])
  {
    var users := FindPaginated(s, perPage, Offset(page, perPage));
    var total := CountAll(s);
    OrderCoversStore(s);
    Listing(page, perPage, total, CeilDiv(total, perPage), ProjectAll(users))
  }

  /** `checkEmailExist($email)` */
  function CheckEmailExist(s: Store, email: string): (r: Option<Exception>)
    ensures r.Some? <==> EmailTaken(s, email)
    ensures r.Some? ==> r.value == HttpException(HTTP_BAD_REQUEST, EMAIL_TAKEN)
  {
    if EmailTaken(s, email) then Some(HttpException(HTTP_BAD_REQUEST, EMAIL_TAKEN)) else None
  }

  /** The uniqueness check runs (the email is not `empty()`) and finds a row. */
  predicate EmailBlocked(s: Store, data: Payload) {
    var email := Get(data, EMAIL);
    !IsEmptyOpt(email) && EmailTaken(s, email.value)
  }

  /** One submitted field names a child of the form, and its normalised value satisfies the constraints. */
  predicate FieldAccepted(name: string, value: string) {
    IsChild(name) && IsValid(name, Normalized(value))
  }

  predicate AllAccepted(data: Payload) {
    forall i :: 0 <= i < |data| ==> FieldAccepted(data[i].0, data[i].1)
  }

  /** Position `i` is the first submitted field that is not accepted. */
  predicate FirstRejected(data: Payload, i: int) {
    && 0 <= i < |data|
    && !FieldAccepted(data[i].0, data[i].1)
    && forall j :: 0 <= j < i ==> FieldAccepted(data[j].0, data[j].1)
  }

  /**
   * The password is submitted, and every other column the table declares NOT
   * NULL gets a non-blank value.
   */
  predicate Complete(data: Payload) {
    && Has(data, PASSWORD)
    && Submitted(data, FIRST_NAME).Some? && Submitted(data, LAST_NAME).Some? && Submitted(data, EMAIL).Some?
  }

  /** A NOT NULL column of the row is null, so flushing it fails. */
  predicate NullColumn(u: User) {
    u.firstName.None? || u.lastName.None? || u.email.None? || u.password.None?
  }

  /** The email is free, every submitted field passes, and every required column is there. */
  predicate Registrable(s: Store, data: Payload) {
    !EmailBlocked(s, data) && AllAccepted(data) && Complete(data)
  }

  /**
   * After binding, the child a submitted field names is valid exactly when
   * the submitted value is: the loop judges the submitted values.
   */
  lemma {:induction false} LoopJudgesSubmittedValues(u: User, data: Payload, submitted: set<string>, i: int)
    requires 0 <= i < |data| && (IsChild(data[i].0) ==> data[i].0 in submitted)
    requires Submit(u, data).Returned?
    ensures Acceptable(Bind(u, data), submitted, data[i].0) <==> FieldAccepted(data[i].0, data[i].1)
  {
    var name := data[i].0;
    GetAt(data, i);
    HasIffAt(data, name);
    if !IsTextField(name) {
      assert ConstraintsOf(name) == [];
    }
  }

  lemma {:induction false} LoopVerdict(u: User, data: Payload, submitted: set<string>)
    requires forall i :: 0 <= i < |data| && IsChild(data[i].0) ==> data[i].0 in submitted
    requires Submit(u, data).Returned?
    ensures var o := CheckFields(Keys(data), Bind(u, data), submitted);
      && (o.None? <==> AllAccepted(data))
      && (o.Some? ==>
            exists i :: (FirstRejected(data, i) && o.value == Rejection(Bind(u, data), submitted, data[i].0)))
  {
    var bound := Bind(u, data);
    forall i | 0 <= i < |data|
      ensures Acceptable(bound, submitted, Keys(data)[i]) <==> FieldAccepted(data[i].0, data[i].1)
    {
      LoopJudgesSubmittedValues(u, data, submitted, i);
    }
  }

  /** The names a submission without clearing takes part in: the submitted ones. */
  function SubmittedNames(data: Payload): set<string> {
    set k | k in Keys(data)
  }

  /**
   * `processForm($data, $form)` on a form over `u`, submitted without
   * clearing missing fields: the submission's exception, or the bound entity,
   * or the loop's exception.
   */
  function ProcessForm(u: User, data: Payload): (r: Outcome<User>)
    ensures r.Returned? <==> Submit(u, data).Returned? && AllAccepted(data)
    ensures r.Returned? ==> r.value == Bind(u, data)
    ensures Submit(u, data).Threw? ==> r == Submit(u, data)
    ensures Submit(u, data).Returned? && !AllAccepted(data) ==>
      exists i :: (FirstRejected(data, i)
        && r == Threw(Rejection(Bind(u, data), SubmittedNames(data), data[i].0)))
  {
    match Submit(u, data)
    case Threw(e) => Threw(e)
    case Returned(bound) =>
      var submitted := SubmittedNames(data);
      assert forall i :: 0 <= i < |data| ==> Keys(data)[i] == data[i].0;
      LoopVerdict(u, data, submitted);
      match CheckFields(Keys(data), bound, submitted)
      case Some(e) => Threw(e)
      case None => Returned(bound)
  }

  /**
   * With missing fields left alone, only submitted fields can contribute a
   * message: every name in `getErrorMessages` was sent in the body.
   */
  lemma ProcessFormReportsSubmittedOnly(u: User, data: Payload, name: string)
    requires !Has(data, name)
    ensures ChildErrors(Bind(u, data), SubmittedNames(data), name) == []
    ensures name !in Keys(ErrorMessages(Bind(u, data), SubmittedNames(data)))
    ensures forall k :: k in Keys(ErrorMessages(Bind(u, data), SubmittedNames(data))) ==> Has(data, k)
  {
    var bound := Bind(u, data);
    var submitted := SubmittedNames(data);
    HasIffInKeys(data, name);
    ErrorMessagesAreLastErrors(bound, submitted);
    LastErrorsKeys(CHILDREN, k => ChildErrors(bound, submitted, k));
    forall k | k in Keys(ErrorMessages(bound, submitted))
      ensures Has(data, k)
    {
      HasIffInKeys(data, k);
    }
  }

  /**
   * What a successful registration leaves in the store. With a file, the
   * upload listener writes the generated name into `avatar`; that listener is
   * not part of this model, so the avatar is only pinned down without a file.
   */
  predicate Registered(s: Store, r: Store, data: Payload, file: Option<File>, enc: Encoder, now: Instant)
    requires Has(data, PASSWORD)
  {
    && Valid(r)
    && r.users.Keys == s.users.Keys + {s.nextId}
    && s.nextId !in s.users
    && (forall id :: id in s.users ==> r.users[id] == s.users[id])
    && var u := r.users[s.nextId];
    && u.id == Some(s.nextId)
    && u.firstName == Submitted(data, FIRST_NAME)
    && u.lastName == Submitted(data, LAST_NAME)
    && u.email == Submitted(data, EMAIL)
    && u.password == Some(enc.encode(Get(data, PASSWORD).value))
    && u.dateCreated == Some(now)
    && u.dateUpdated == Some(now)
    && (file.None? ==> u.avatar == None)
    && u.imageFile == file
  }

  /** The names a register submission binds: with missing fields cleared, every child. */
  function AllChildren(): set<string> {
    set k | k in CHILDREN
  }

  /**
   * The steps of `register` after the validation loop: attach the image,
   * store the password encoded as it was sent (untrimmed), insert the entity.
   */
  function Persist(s: Store, bound: User, data: Payload, file: Option<File>, enc: Encoder, now: Instant): (r: Outcome<Store>)
    requires Valid(s)
    requires bound == Bind(New(now), data)
    ensures r.Returned? <==> Complete(data)
    ensures r.Returned? ==> Registered(s, r.value, data, file, enc, now)
    ensures r.Threw? ==> r.error.FrameworkException?
  {
    var withImage := SetImageFile(bound, file, now);
    match Get(data, PASSWORD)
    case None => Threw(FrameworkException(UNDEFINED_PASSWORD_KEY))
    case Some(plain) =>
      var hashed := SetPassword(withImage, Some(enc.encode(plain)));
      PreparedRow(bound, data, file, enc, now, plain);
      if NullColumn(hashed) then
        Threw(FrameworkException(NULL_COLUMN))
      else
        InsertRegisters(s, hashed, data, file, enc, now);
        Returned(Insert(s, hashed).0)
  }

  /** The entity `register` persists: the bound text fields, the encoded password, the image, the constructor's dates. */
  lemma PreparedRow(bound: User, data: Payload, file: Option<File>, enc: Encoder, now: Instant, plain: string)
    requires bound == Bind(New(now), data)
    requires Get(data, PASSWORD) == Some(plain)
    ensures var u := SetPassword(SetImageFile(bound, file, now), Some(enc.encode(plain)));
      && u.firstName == Submitted(data, FIRST_NAME)
      && u.lastName == Submitted(data, LAST_NAME)
      && u.email == Submitted(data, EMAIL)
      && u.password == Some(enc.encode(plain))
      && u.dateCreated == Some(now)
      && u.dateUpdated == Some(now)
      && (file.None? ==> u.avatar == None)
      && u.imageFile == file
  {
    FreshBind(now, data);
    assert FieldText(bound, FIRST_NAME) == Submitted(data, FIRST_NAME);
    assert FieldText(bound, LAST_NAME) == Submitted(data, LAST_NAME);
    assert FieldText(bound, EMAIL) == Submitted(data, EMAIL);
    BindKeepsOthers(New(now), data);
  }

  /** Inserting the prepared entity is a registration of `data`. */
  lemma InsertRegisters(s: Store, u: User, data: Payload, file: Option<File>, enc: Encoder, now: Instant)
    requires Valid(s) && Has(data, PASSWORD)
    requires u.firstName == Submitted(data, FIRST_NAME) && u.lastName == Submitted(data, LAST_NAME)
    requires u.email == Submitted(data, EMAIL)
    requires u.password == Some(enc.encode(Get(data, PASSWORD).value))
    requires u.dateCreated == Some(now) && u.dateUpdated == Some(now)
    requires (file.None? ==> u.avatar == None) && u.imageFile == file
    ensures Registered(s, Insert(s, u).0, data, file, enc, now)
  {
  }

  /**
   * The validation loop of `register`, over a new entity with missing fields
   * cleared. The submission before it binds without throwing
   * (`FreshSubmitReturns`).
   */
  function RegisterLoop(data: Payload, now: Instant): (r: Option<Exception>)
    ensures r.None? <==> AllAccepted(data)
    ensures r.Some? ==>
      exists i :: (FirstRejected(data, i)
        && r.value == Rejection(Bind(New(now), data), AllChildren(), data[i].0))
  {
    FreshSubmitReturns(now, data);
    LoopVerdict(New(now), data, AllChildren());
    CheckFields(Keys(data), Bind(New(now), data), AllChildren())
  }

  /**
   * `register`: email uniqueness first, then the validation loop, then the
   * image, the encoded password and one insert.
   */
  function Register(s: Store, body: Decoded<Payload>, file: Option<File>, enc: Encoder, now: Instant): (r: Outcome<Store>)
    requires Valid(s)
    ensures body.Undecodable? ==> r == Threw(FrameworkException(body.reason))
    ensures body.Json? && EmailBlocked(s, body.value) ==>
      r == Threw(HttpException(HTTP_BAD_REQUEST, EMAIL_TAKEN))
    ensures body.Json? && !EmailBlocked(s, body.value) && !AllAccepted(body.value) ==>
      exists i :: (FirstRejected(body.value, i)
        && r == Threw(Rejection(Bind(New(now), body.value), AllChildren(), body.value[i].0)))
    ensures r.Returned? <==> body.Json? && Registrable(s, body.value)
    ensures r.Returned? ==> Registered(s, r.value, body.value, file, enc, now)
  {
    match body
    case Undecodable(reason) => Threw(FrameworkException(reason))
    case Json(data) =>
      var email := Get(data, EMAIL);
      if !IsEmptyOpt(email) && CheckEmailExist(s, email.value).Some? then
        Threw(CheckEmailExist(s, email.value).value)
      else
        match RegisterLoop(data, now)
        case Some(e) => Threw(e)
        case None => Persist(s, Bind(New(now), data), data, file, enc, now)
  }

  /** `findOneBy(['id' => $key])` for a submitted key; only a digit string can match an integer id. */
  function Lookup(s: Store, key: string): (r: Option<User>)
    ensures r.Some? <==> ParseNat(key).Some? && ParseNat(key).value in s.users
    ensures r.Some? ==> r.value == s.users[ParseNat(key).value]
  {
    match ParseNat(key)
    case None => None
    case Some(id) => FindById(s, id)
  }

  const USER_ID_KEY: string := "user_id"
  const ID_KEY: string := "id"

  /**
   * `editUser`: a missing id is a 400 envelope, an unknown one a 200 "not
   * found" envelope, a known one the user's public projection.
   */
  function EditUser(s: Store, params: Decoded<Payload>): (r: Outcome<EditReply>)
    ensures params.Undecodable? ==> r == Threw(FrameworkException(params.reason))
    ensures params.Json? ==> r.Returned?
    ensures params.Json? && IsEmptyOpt(Get(params.value, USER_ID_KEY)) ==>
      r.value == EditReply(HTTP_BAD_REQUEST, USER_ID_REQUIRED, EmptyText)
    ensures params.Json? && !IsEmptyOpt(Get(params.value, USER_ID_KEY)) ==>
      var key := Get(params.value, USER_ID_KEY).value;
      && r.value.status == HTTP_OK
      && (r.value.data.Profile? <==> Lookup(s, key).Some?)
      && (Lookup(s, key).None? ==> r.value == EditReply(HTTP_OK, USER_NOT_FOUND, EmptyText))
      && (Lookup(s, key).Some? ==>
            var u := Lookup(s, key).value;
            && r.value.message == SUCCESS
            && r.value.data.user.id == u.id
            && r.value.data.user.firstName == u.firstName
            && r.value.data.user.lastName == u.lastName
            && r.value.data.user.email == u.email
            && r.value.data.user.avatar == AvatarUrl(u.avatar)
            && StoredAvatar(r.value.data.user.avatar) == u.avatar)
  {
    match params
    case Undecodable(reason) => Threw(FrameworkException(reason))
    case Json(data) =>
      var key := Get(data, USER_ID_KEY);
      if IsEmptyOpt(key) then Returned(EditReply(HTTP_BAD_REQUEST, USER_ID_REQUIRED, EmptyText))
      else
        match Lookup(s, key.value)
        case None => Returned(EditReply(HTTP_OK, USER_NOT_FOUND, EmptyText))
        case Some(u) =>
          AvatarRoundTrip(u.avatar);
          Returned(EditReply(HTTP_OK, SUCCESS, Profile(Project(u))))
  }

  /**
   * What a found-user update leaves in the store: only that row, only its
   * bound fields and image, and with a file also the avatar the upload
   * listener writes.
   */
  ghost predicate Updated(s: Store, r: Store, u: User, data: Payload, file: Option<File>, now: Instant)
    requires u.id.Some?
  {
    var id := u.id.value;
    && Valid(r)
    && r.users.Keys == s.users.Keys
    && r.nextId == s.nextId
    && id in r.users
    && (forall other :: other in s.users && other != id ==> r.users[other] == s.users[other])
    && var n := r.users[id];
    && (forall f :: IsTextField(f) ==> FieldText(n, f) == Merged(u, data, f))
    && n.imageFile == file
    && (file.Some? ==> n.dateUpdated == Some(now))
    && (file.None? ==> n.dateUpdated == u.dateUpdated)
    && OnlyChanges(u, n, TEXT_SLOTS + {ImageFileSlot, DateUpdatedSlot} + (if file.Some? then {AvatarSlot} else {}))
  }

  /** The row an update leaves, field by field. */
  lemma UpdatedRow(s: Store, r: Store, u: User, data: Payload, file: Option<File>, now: Instant)
    requires u.id.Some? && Updated(s, r, u, data, file, now)
    ensures u.id.value in r.users
    ensures var n := r.users[u.id.value];
      && n.id == u.id
      && n.firstName == Merged(u, data, FIRST_NAME) && n.lastName == Merged(u, data, LAST_NAME)
      && n.email == Merged(u, data, EMAIL) && n.password == Merged(u, data, PASSWORD)
      && n.dateCreated == u.dateCreated
      && n.dateUpdated == (if file.Some? then Some(now) else u.dateUpdated)
      && n.imageFile == file
  {
    var n := r.users[u.id.value];
    assert FieldText(n, FIRST_NAME) == Merged(u, data, FIRST_NAME);
    assert FieldText(n, LAST_NAME) == Merged(u, data, LAST_NAME);
    assert FieldText(n, EMAIL) == Merged(u, data, EMAIL);
    assert FieldText(n, PASSWORD) == Merged(u, data, PASSWORD);
    UpdateKeepsIdentity(u, n, file);
  }

  /** An update never touches the id or the creation date. */
  lemma UpdateKeepsIdentity(u: User, n: User, file: Option<File>)
    requires OnlyChanges(u, n, TEXT_SLOTS + {ImageFileSlot, DateUpdatedSlot} + (if file.Some? then {AvatarSlot} else {}))
    ensures n.id == u.id && n.dateCreated == u.dateCreated
  {
    assert SlotValue(n, IdSlot) == SlotValue(u, IdSlot);
    assert SlotValue(n, DateCreatedSlot) == SlotValue(u, DateCreatedSlot);
  }

  /**
   * An update of `u` can be saved: every text property ends non-null, the
   * submitted ones non-blank and the omitted ones already set.
   */
  predicate Updatable(u: User, data: Payload) {
    && Merged(u, data, FIRST_NAME).Some? && Merged(u, data, LAST_NAME).Some?
    && Merged(u, data, EMAIL).Some? && Merged(u, data, PASSWORD).Some?
  }

  /**
   * `updateUser`: the same id handling as `editUser`. A found user takes the
   * submitted fields (no validation, no email check) and the image, and is
   * saved. A blank value for a typed setter makes the submission throw, and a
   * row left with a null NOT NULL column makes the flush throw.
   */
  function UpdateUser(s: Store, params: Decoded<Payload>, file: Option<File>, now: Instant): (r: Outcome<(Reply, Store)>)
    requires Valid(s)
    ensures params.Undecodable? ==> r == Threw(FrameworkException(params.reason))
    ensures params.Json? && IsEmptyOpt(Get(params.value, ID_KEY)) ==>
      r == Returned((Reply(HTTP_BAD_REQUEST, USER_ID_REQUIRED), s))
    ensures params.Json? && !IsEmptyOpt(Get(params.value, ID_KEY)) ==>
      var key := Get(params.value, ID_KEY).value;
      && (Lookup(s, key).None? ==> r == Returned((Reply(HTTP_OK, USER_NOT_FOUND), s)))
      && (Lookup(s, key).Some? ==>
            var u := Lookup(s, key).value;
            && u.id.Some?
            && (r.Returned? <==> Updatable(u, params.value))
            && (r.Returned? ==> r.value.0 == Reply(HTTP_OK, DATA_UPDATED) && Updated(s, r.value.1, u, params.value, file, now))
            && (Submit(u, params.value).Threw? ==> r == Threw(Submit(u, params.value).error))
            && (r.Threw? ==> r.error.FrameworkException?))
  {
    match params
    case Undecodable(reason) => Threw(FrameworkException(reason))
    case Json(data) =>
      var key := Get(data, ID_KEY);
      if IsEmptyOpt(key) then Returned((Reply(HTTP_BAD_REQUEST, USER_ID_REQUIRED), s))
      else
        match Lookup(s, key.value)
        case None => Returned((Reply(HTTP_OK, USER_NOT_FOUND), s))
        case Some(u) => SaveUpdate(s, u, data, file, now)
  }

  /** The part of `updateUser` after the user was found: submit, attach the image, flush. */
  function SaveUpdate(s: Store, u: User, data: Payload, file: Option<File>, now: Instant): (r: Outcome<(Reply, Store)>)
    requires Valid(s) && u.id.Some? && u.id.value in s.users
    ensures r.Returned? <==> Updatable(u, data)
    ensures r.Returned? ==> r.value.0 == Reply(HTTP_OK, DATA_UPDATED) && Updated(s, r.value.1, u, data, file, now)
    ensures Submit(u, data).Threw? ==> r == Threw(Submit(u, data).error)
    ensures r.Threw? ==> r.error.FrameworkException?
  {
    match Submit(u, data)
    case Threw(e) =>
      UpdateFailsOnNull(u, data);
      Threw(e)
    case Returned(bound) =>
      var changed := SetImageFile(bound, file, now);
      SavedColumns(u, data, bound, changed);
      if NullColumn(changed) then Threw(FrameworkException(NULL_COLUMN))
      else
        BindKeepsOthers(u, data);
        Returned((Reply(HTTP_OK, DATA_UPDATED), Save(s, changed)))
  }

  /** A submission that throws leaves some text property null: the update is not `Updatable`. */
  lemma UpdateFailsOnNull(u: User, data: Payload)
    requires Submit(u, data).Threw?
    ensures !Updatable(u, data)
  {
    var f :| IsTextField(f) && RejectsNull(u, data, f);
    assert Merged(u, data, f).None?;
  }

  /** After a submission that returns, the saved row has a null column exactly when the update is not `Updatable`. */
  lemma SavedColumns(u: User, data: Payload, bound: User, changed: User)
    requires Submit(u, data) == Returned(bound)
    requires OnlyChanges(bound, changed, {ImageFileSlot, DateUpdatedSlot})
    ensures NullColumn(changed) <==> !Updatable(u, data)
  {
    assert SlotValue(changed, FirstNameSlot) == SlotValue(bound, FirstNameSlot);
    assert SlotValue(changed, LastNameSlot) == SlotValue(bound, LastNameSlot);
    assert SlotValue(changed, EmailSlot) == SlotValue(bound, EmailSlot);
    assert SlotValue(changed, PasswordSlot) == SlotValue(bound, PasswordSlot);
    assert FieldText(bound, FIRST_NAME) == Merged(u, data, FIRST_NAME);
    assert FieldText(bound, LAST_NAME) == Merged(u, data, LAST_NAME);
    assert FieldText(bound, EMAIL) == Merged(u, data, EMAIL);
    assert FieldText(bound, PASSWORD) == Merged(u, data, PASSWORD);
  }

  /** `$data['password']`; a body that does not decode reads as null. */
  function SubmittedPassword(body: Decoded<Payload>): Option<string> {
    if body.Json? then Get(body.value, PASSWORD) else None
  }

  /**
   * `verifyPassword`: no session user, then no password, throw; otherwise
   * the encoder decides between 200 and 401.
   */
  function VerifyPassword(session: Option<User>, body: Decoded<Payload>, enc: Encoder): (r: Outcome<Reply>)
    ensures session.None? ==> r == Threw(HttpException(HTTP_BAD_REQUEST, NO_SESSION_USER))
    ensures session.Some? && IsEmptyOpt(SubmittedPassword(body)) ==>
      r == Threw(HttpException(HTTP_BAD_REQUEST, PASSWORD_REQUIRED))
    ensures session.Some? && !IsEmptyOpt(SubmittedPassword(body)) ==>
      && r.Returned?
      && (r.value.status == HTTP_OK <==> enc.isValid(GetPassword(session.value), SubmittedPassword(body).value))
      && (r.value.status == HTTP_OK ==> r.value.message == SUCCESS)
      && (r.value.status != HTTP_OK ==> r.value == Reply(HTTP_UNAUTHORIZED, WRONG_PASSWORD))
  {
    var raw := SubmittedPassword(body);
    if session.None? then Threw(HttpException(HTTP_BAD_REQUEST, NO_SESSION_USER))
    else if IsEmptyOpt(raw) then Threw(HttpException(HTTP_BAD_REQUEST, PASSWORD_REQUIRED))
    else if !enc.isValid(GetPassword(session.value), raw.value) then
      Returned(Reply(HTTP_UNAUTHORIZED, WRONG_PASSWORD))
    else Returned(Reply(HTTP_OK, SUCCESS))
  }
}
