/**
 * The `User` entity: its columns, the constructor, the setters and the
 * image-upload hook that keeps Doctrine's change tracking alive.
 */
module UserEntity {
  import opened Wrappers

  /** A clock reading; the model only compares them. */
  type Instant = int

  /** An uploaded file; where VichUploader puts it is not modelled. */
  datatype File = File(clientName: string)

  /** Every property of the entity; `None` is PHP's null. */
  datatype User = User(
    id: Option<int>,
    firstName: Option<string>,
    lastName: Option<string>,
    email: Option<string>,
    password: Option<string>,
    dateCreated: Option<Instant>,
    dateUpdated: Option<Instant>,
    avatar: Option<string>,
    imageFile: Option<File>)

  /** Names of the properties, so that "nothing else changes" can be said once. */
  datatype Slot =
    | IdSlot | FirstNameSlot | LastNameSlot | EmailSlot | PasswordSlot
    | DateCreatedSlot | DateUpdatedSlot | AvatarSlot | ImageFileSlot

  datatype Value =
    | IntValue(i: Option<int>)
    | TextValue(t: Option<string>)
    | TimeValue(at: Option<Instant>)
    | FileValue(f: Option<File>)

  function SlotValue(u: User, s: Slot): Value {
    match s
    case IdSlot => IntValue(u.id)
    case FirstNameSlot => TextValue(u.firstName)
    case LastNameSlot => TextValue(u.lastName)
    case EmailSlot => TextValue(u.email)
    case PasswordSlot => TextValue(u.password)
    case DateCreatedSlot => TimeValue(u.dateCreated)
    case DateUpdatedSlot => TimeValue(u.dateUpdated)
    case AvatarSlot => TextValue(u.avatar)
    case ImageFileSlot => FileValue(u.imageFile)
  }

  predicate IsNull(v: Value) {
    match v
    case IntValue(i) => i.None?
    case TextValue(t) => t.None?
    case TimeValue(at) => at.None?
    case FileValue(f) => f.None?
  }

  /** `r` agrees with `u` on every property outside `changed`. */
  predicate OnlyChanges(u: User, r: User, changed: set<Slot>) {
    forall s :: s !in changed ==> SlotValue(r, s) == SlotValue(u, s)
  }

  /** `new User()`: both dates read the clock, everything else is null. */
  function New(now: Instant): (r: User)
    ensures r.dateCreated == Some(now) && r.dateUpdated == Some(now)
    ensures forall s :: s != DateCreatedSlot && s != DateUpdatedSlot ==> IsNull(SlotValue(r, s))
  {
    User(None, None, None, None, None, Some(now), Some(now), None, None)
  }

  function SetFirstName(u: User, firstName: string): (r: User)
    ensures r.firstName == Some(firstName)
    ensures OnlyChanges(u, r, {FirstNameSlot})
  {
    u.(firstName := Some(firstName))
  }

  function SetLastName(u: User, lastName: string): (r: User)
    ensures r.lastName == Some(lastName)
    ensures OnlyChanges(u, r, {LastNameSlot})
  {
    u.(lastName := Some(lastName))
  }

  function SetEmail(u: User, email: string): (r: User)
    ensures r.email == Some(email)
    ensures OnlyChanges(u, r, {EmailSlot})
  {
    u.(email := Some(email))
  }

  /** Unlike the name setters, this one accepts null. */
  function SetPassword(u: User, password: Option<string>): (r: User)
    ensures r.password == password
    ensures OnlyChanges(u, r, {PasswordSlot})
  {
    u.(password := password)
  }

  function SetDateCreated(u: User, at: Option<Instant>): (r: User)
    ensures r.dateCreated == at
    ensures OnlyChanges(u, r, {DateCreatedSlot})
  {
    u.(dateCreated := at)
  }

  function SetDateUpdated(u: User, at: Option<Instant>): (r: User)
    ensures r.dateUpdated == at
    ensures OnlyChanges(u, r, {DateUpdatedSlot})
  {
    u.(dateUpdated := at)
  }

  function SetAvatar(u: User, avatar: Option<string>): (r: User)
    ensures r.avatar == avatar
    ensures OnlyChanges(u, r, {AvatarSlot})
  {
    u.(avatar := avatar)
  }

  /**
   * Always stores the file; touches `dateUpdated` only when a file is given,
   * so that Doctrine sees a changed column and the upload listener runs.
   */
  function SetImageFile(u: User, image: Option<File>, now: Instant): (r: User)
    ensures r.imageFile == image
    ensures image.Some? ==> r.dateUpdated == Some(now)
    ensures image.None? ==> OnlyChanges(u, r, {ImageFileSlot})
    ensures OnlyChanges(u, r, {ImageFileSlot, DateUpdatedSlot})
  {
    var withFile := u.(imageFile := image);
    if image.Some? then withFile.(dateUpdated := Some(now)) else withFile
  }

  /** `(string)$this->password`: null reads as "". */
  function GetPassword(u: User): string {
    match u.password
    case Some(p) => p
    case None => ""
  }

  lemma GetPasswordAfterSet(u: User, p: Option<string>)
    ensures p.Some? ==> GetPassword(SetPassword(u, p)) == p.value
    ensures p.None? ==> GetPassword(SetPassword(u, p)) == ""
    ensures GetPassword(SetPassword(u, Some(""))) == GetPassword(SetPassword(u, None))
  {
  }

  function GetRoles(u: User): seq<string> {
    ["ROLE_USER"]
  }

  /** Every user, whatever its state, holds exactly the one role. */
  lemma RolesAreFixed(u: User, v: User)
    ensures GetRoles(u) == GetRoles(v)
    ensures |GetRoles(u)| == 1 && GetRoles(u)[0] == "ROLE_USER"
  {
  }

  /** Both dates are set and the entity was not updated before it was created. */
  predicate DatesOrdered(u: User) {
    && u.dateCreated.Some?
    && u.dateUpdated.Some?
    && u.dateCreated.value <= u.dateUpdated.value
  }

  /**
   * A fresh entity has ordered dates, and attaching a file at a clock reading
   * no earlier than the last update keeps them ordered.
   */
  lemma DatesStayOrdered(now: Instant, u: User, image: Option<File>, later: Instant)
    ensures DatesOrdered(New(now))
    ensures DatesOrdered(u) && later >= u.dateUpdated.value ==> DatesOrdered(SetImageFile(u, image, later))
  {
  }
}
