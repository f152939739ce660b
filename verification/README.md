# User API of demo_symfony, modelled in Dafny

This project models the user API of a small Symfony application. A client
registers users, lists them page by page, reads one profile, updates a
profile and checks the logged-in user's password. It covers these parts:

- `User`: the Doctrine entity, its validation constraints and its setters.
- `UserFormType`: the Symfony form that binds a JSON body to the entity.
- `UserService`: the five operations.
- `UserController`: the JSON endpoints that wrap the five operations.

The model is functional. The user table is a `Store`, a map from generated
id to `User` plus the next id to hand out. Each operation is a function of:

- the store;
- the decoded request body;
- the outside world, passed in as values: the clock (`Instant`), the
  password encoder (`Encoder`), the uploaded file and the session user.

Each operation returns a reply and, where it writes, the next store.
Exceptions are values. An `HttpException(status, message)` is one the
service throws itself. A `FrameworkException(message)` is one thrown by PHP,
Symfony, Doctrine or `json_decode`. The controller turns both into a 400
body that carries the message.

A request body is a PHP array: a `seq` of key/value pairs with distinct
keys, in submission order (module `PhpArray`). The order matters. The
validation loop of `register` walks the submitted fields in order, and the
first field that fails decides which exception is thrown. PHP's `empty()`
is modelled exactly: `""` and `"0"` are both empty (module `PhpString`).

Binding a body to the form keeps what the form does with the four text
children (`firstName`, `lastName`, `email`, `password`):

- The form trims each submitted text value. Symfony's default `trim` option
  strips Unicode separators, control characters and format characters from
  both ends (module `PhpString`). A value that is blank after trimming
  becomes null.
- The data mapper writes a value only when it differs from what the
  property's getter returns. A null over a null property is not written.
- `setFirstName`, `setLastName` and `setEmail` take a non-null `string`.
  A null over a property that holds a value makes the submission throw
  PropertyAccess's "Expected argument of type "string", "null" given"
  exception. The mapper walks the children in declaration order, so the
  first such child decides the message.
- `setPassword` takes `?string`, and `getPassword` reads null as "". So the
  password child always writes, null included.
- The columns `firstName`, `lastName`, `email` and `password` are NOT NULL.
  Flushing a row with any of them null throws.
- `register` submits with missing fields cleared. Every child then takes
  part in validation, so a missing name or password shows up in the error
  message. A missing or blank email passes validation, since it has no
  constraint, and then fails at the flush.
- `register` checks uniqueness on the email as sent, but stores it trimmed.
  It encodes the password as sent, untrimmed.
- `processForm` submits without clearing. Only the submitted children are
  validated.
- The validation loops of `register` and `processForm` call
  `$form->get($field)` for each submitted name. A submitted name that is not
  a child therefore fails with Symfony's "Child ... does not exist."
  exception. `updateUser` has no such loop and ignores that name.
- The error message is built by `getErrorMessages` and joined with `", "`.
  It holds, for each child in declaration order, that child's last error.
  This holds because a later error of the same child overwrites the
  earlier one in the PHP array.

Modules, one per file:

- `Wrappers`, `Http`, `PhpArray`, `PhpString`: the PHP and HTTP vocabulary.
- `UserEntity`, `UserConstraints`: the entity and its constraints.
- `UserForm`: binding and error collection.
- `UserStore`: the repository.
- `UserService`, `UserController`: the operations and the endpoints.
- `UserServiceProperties`, `UserControllerProperties`: properties that
  relate several calls.
- `UserServiceExamples`: one concrete registration traced to its message.

The code disagrees with a reading of the API as "update validates like
register" in two places. `updateUser` validates nothing: it never reads the
form's validity. It also stores a submitted password as the form trimmed it,
without encoding it. The model follows the code. Both behaviours are stated as
lemmas (`UpdateDoesNotValidate`, `UpdateStoresPasswordAsSubmitted`).

## Model

| member | source | states |
|---|---|---|
| PhpArray.Put | src/Services/UserService.php:90 | `$errors[$name] = $message`: afterwards the key maps to the new value and every other key is unchanged. An existing key keeps its position; a new key is appended at the end. |
| PhpString.ParseShow | src/Services/UserService.php:191 | The id a client sends back as a decimal string is parsed as the same id: `ParseNat(ShowNat(n)) == Some(n)`. |
| PhpString.TrimSplits | src/Form/UserFormType.php:19-22 | The trim of a string is a slice of it: only trimmable characters lie before and after it, and it neither starts nor ends with one. |
| PhpString.TrimUnique | src/Form/UserFormType.php:19-22 | Conversely, any split of a string into trimmable ends around such a middle has that middle as its trim. |
| PhpString.TrimKeeps | src/Form/UserFormType.php:19-22 | A string that neither starts nor ends with a trimmable character is its own trim. |
| PhpString.TrimIdempotent | src/Form/UserFormType.php:19-22 | Trimming twice gives the same as trimming once. |
| UserEntity.New | src/Entity/User.php:85-89 | A new entity has both dates set to the construction time; every other property is null. |
| UserEntity.SetFirstName | src/Entity/User.php:101-106 | Writes the first name and changes no other property. |
| UserEntity.SetLastName | src/Entity/User.php:113-118 | Writes the last name and changes no other property. |
| UserEntity.SetEmail | src/Entity/User.php:125-130 | Writes the email and changes no other property. |
| UserEntity.SetPassword | src/Entity/User.php:145-150 | Writes the (nullable) password and changes no other property. |
| UserEntity.SetDateCreated | src/Entity/User.php:157-162 | Writes the creation date and changes no other property. |
| UserEntity.SetDateUpdated | src/Entity/User.php:169-174 | Writes the update date and changes no other property. |
| UserEntity.SetAvatar | src/Entity/User.php:205-210 | Writes the avatar name and changes no other property. |
| UserEntity.SetImageFile | src/Entity/User.php:212-222 | Always stores the file. A given file also moves `dateUpdated` to now; no file leaves every other property unchanged. |
| UserEntity.GetPasswordAfterSet | src/Entity/User.php:135-138 | Reading the password after setting it gives the value set; a null password reads as "", the same as an empty one. |
| UserEntity.RolesAreFixed | src/Entity/User.php:183-186 | Every user, whatever its state, has exactly the one role `ROLE_USER`. |
| UserEntity.DatesStayOrdered | src/Entity/User.php:212-222 | A new entity's dates are ordered; attaching a file at a later clock reading keeps creation no later than update. |
| UserConstraints.NameValidIff | src/Entity/User.php:29-49 | A first or last name passes its constraints exactly when it is not null and has 3 to 50 characters. |
| UserConstraints.PasswordValidIff | src/Entity/User.php:56-66 | A password passes its constraints exactly when it is not null and has 4 to 50 characters. |
| UserConstraints.UnconstrainedAlwaysValid | src/Entity/User.php:52-53 | The email, and every property other than the names and the password, can never fail validation. |
| UserConstraints.BlankNameMessages | src/Entity/User.php:29-37 | An empty first name reports both the blank and the too-short message, in that order; a null one reports only the blank message. |
| UserForm.Bind | src/Form/UserFormType.php:17-27 | After a submit, each text property holds the trimmed submitted value if its key was sent, with blank read as null, and is untouched otherwise. The exception is a blank name or email over a set one, where the setter throws (`Submit`). No other property changes. |
| UserForm.Submit | src/Entity/User.php:101-130 | A submission throws exactly when some text child would hand null to its typed setter: a blank name or email over a set one. It then throws the type exception for the first such child in declaration order. Otherwise it returns the bound entity, in which every text property holds the trimmed submitted value or its old one. |
| UserForm.BlankFirstNameThrows | src/Entity/User.php:101-106 | A blank first name submitted over a stored one makes the submission throw, with `setFirstName`'s type exception. |
| UserForm.FreshSubmitReturns | src/Services/UserService.php:147-155 | A submission over a new entity never throws, because every text property starts null and a null over a null is not written. |
| UserForm.FreshBind | src/Services/UserService.php:147-155 | Over a new entity, each text property ends holding the trimmed submitted value, or null when it is blank or missing. |
| UserForm.SubmittedAsSent | src/Form/UserFormType.php:19-22 | A non-empty submitted value without trimmable ends reaches the entity unchanged. |
| UserForm.BlankIsNull | src/Form/UserFormType.php:19-22 | "", " " and "\t\n" all become null. A blank first name over a new entity then reports only the NotBlank message. |
| UserForm.CollectChildrenIsLastErrors | src/Services/UserService.php:84-94 | Collecting errors child by child into the PHP array gives the reference list: one entry per child with errors, in child order, holding that child's last error. |
| UserForm.ErrorMessagesAreLastErrors | src/Services/UserService.php:84-94 | `getErrorMessages` of the whole form equals the reference list, and the joined message is built from its values. |
| UserForm.LastErrorsKeys | src/Services/UserService.php:84-94 | A name gets an entry in the collected messages only if it is one of the children walked and that child has at least one error. |
| UserForm.CheckFields | src/Services/UserService.php:71-76 | The loop passes exactly when every name is an acceptable child. Otherwise it throws for the first name that is not: "does not exist" for an unknown name, 400 with the joined messages for an invalid one. |
| UserStore.FindById | src/Services/UserService.php:191 | A lookup by id finds a row exactly when the id is in the table, and that row is returned. |
| UserStore.Insert | src/Services/UserService.php:167-168 | Persisting a new entity gives it a fresh positive id, adds exactly that row with its id set, keeps every other row, and keeps the table's invariant. |
| UserStore.Save | src/Services/UserService.php:252-253 | Flushing a managed entity replaces only its own row; the ids and the id counter stay the same. |
| UserStore.OrderCoversStore | src/Services/UserService.php:111-113 | The id-ordered listing contains every row exactly once, so its length is the `findAll` count. |
| UserStore.FindPaginated | src/Services/UserService.php:111 | A page holds at most `limit` rows: the rows at positions `offset` onward in id order, as many as remain. |
| UserService.AvatarRoundTrip | src/Services/UserService.php:123 | A non-empty avatar is shown with the upload directory prefixed once; an empty one is shown as is. The stored name can always be recovered from what is shown. |
| UserService.CeilDiv | src/Services/UserService.php:114 | The page count is the least number of pages of `perPage` users that holds all users. |
| UserService.UserList | src/Services/UserService.php:101-135 | The listing echoes page and page size and counts every user. Its page count is the ceiling. Its data are the users at positions `(page-1)*perPage` onward in id order, projected, with at most `perPage` of them. |
| UserService.CheckEmailExist | src/Services/UserService.php:264-271 | Throws the 400 "already registered" exception exactly when some row holds the email. |
| UserService.ProcessForm | src/Services/UserService.php:67-77 | A submission that hands null to a typed setter throws that exception. Otherwise the bound entity is returned exactly when every submitted field is an acceptable child; if not, it throws the rejection for the first field that is not, judged against the submitted fields only. |
| UserService.ProcessFormReportsSubmittedOnly | src/Services/UserService.php:69-94 | Without clearing, a field that was not submitted has no errors and no entry in `getErrorMessages`. Every name in the collected messages was sent in the body, so only submitted fields can appear in the joined message. |
| UserService.LoopJudgesSubmittedValues | src/Services/UserService.php:158-163 | After binding, the child named by a submitted field is valid exactly when the submitted value satisfies that property's constraints, once trimmed and with blank read as null. |
| UserService.Persist | src/Services/UserService.php:165-168 | After validation, the user is inserted exactly when the password was submitted and the names and email are non-blank after trimming. Otherwise the flush throws. The stored row holds the password encoded as sent, the file and the constructor's dates (see Left out: the source's clearing submit writes null over them), and without a file no avatar. |
| UserService.Register | src/Services/UserService.php:140-169 | An undecodable body fails. Next, a taken non-empty email, compared as sent, throws 400 before any validation. Next, the first field that fails throws. Registration succeeds exactly when the body decodes, the email is not taken, every field passes, the password is sent and the names and email are non-blank. It then adds one row holding the trimmed names and email, and changes nothing else. |
| UserService.Lookup | src/Services/UserService.php:191 | A submitted id finds a user exactly when it is a digit string naming a row. |
| UserService.EditUser | src/Services/UserService.php:176-214 | An empty `user_id` gives 400 "User ID is required" and an unknown one 200 "User not found". A known one gives 200 "Success" with the user's id, names and email, and with the avatar shown under the upload directory unless it is `empty()`. The stored avatar name is recoverable from the shown one. |
| UserService.UpdateUser | src/Services/UserService.php:221-259 | An empty `id` gives 400 and an unknown one 200 "User not found", with the store unchanged in both cases. A known user's update succeeds exactly when every text property ends non-null. It then takes the trimmed submitted text fields and the file, unvalidated, and only that row changes. Within the row only the text fields, the file, `dateUpdated` and, with a file, the avatar may change. A submission that throws gives that exception, and every failure is a framework exception. |
| UserService.SaveUpdate | src/Services/UserService.php:243-253 | For a found user, the update succeeds exactly when every text property ends non-null. A throwing submission passes its exception on. A row left with a null column fails at the flush. On success only that row changes, as `UserService.UpdateUser` states. |
| UserService.VerifyPassword | src/Services/UserService.php:278-302 | No session user throws "JWT token not found", then an empty password throws "Password is required". Otherwise the reply is 200 "Success" exactly when the encoder accepts the password against the stored hash, and 401 otherwise. |
| UserController.Index | src/Controller/Api/UserController.php:42-61 | A non-POST request answers 400 "Invalid Method". A POST answers the service's listing of the requested page, whose page and total it echoes. A body that does not decode answers 400 with the decoder's message. |
| UserController.Register | src/Controller/Api/UserController.php:71-93 | A non-POST request answers 400 "Invalid Method" and leaves the store. A POST answers 200 "Registered successfully" with the new store, or 400 with the exception's message and the old store. |
| UserController.EditUser | src/Controller/Api/UserController.php:103-120 | Whatever the method, the service's status, message and data are rendered, or 400 with the exception's message. |
| UserController.UpdateUser | src/Controller/Api/UserController.php:130-146 | Whatever the method, the service's status and message are rendered, and the store is changed only when the service returns. |
| UserController.VerifyPassword | src/Controller/Api/UserController.php:156-169 | Whatever the method, the service's status and message are rendered, or 400 with the exception's message. |
| UserServiceProperties.RegisteredPasswordIsValid | src/Services/UserService.php:158-166 | Whenever registration can succeed, the password was submitted. It has 4 to 50 characters after trimming and at least 4 as sent. |
| UserServiceProperties.RegisterThenVerifyPassword | src/Services/UserService.php:166 | When registration can succeed it does. With an encoder that recognises its own encodings, the store keeps the encoding, not the password, and the new user verifying the same password gets 200 "Success". |
| UserServiceProperties.RegisterSameEmailTwice | src/Services/UserService.php:143-145 | When a first registration can succeed it does. A second one with the same non-empty email, sent without surrounding white space, then throws 400 "already registered". |
| UserServiceProperties.PaddedEmailRegistersTwice | src/Services/UserService.php:143-155 | An email sent with surrounding white space is checked as sent but stored trimmed. So a registration that can succeed succeeds twice, and leaves two rows holding the same trimmed email. |
| UserServiceProperties.EmailZeroRegistersTwice | src/Services/UserService.php:143 | The email "0" is `empty()` in PHP and never checked for uniqueness. A registration with it that succeeds once succeeds a second time, although a row with that email now exists. |
| UserServiceProperties.IdParamsFind | src/Services/UserService.php:182-191 | Sending a row's id back as its decimal string is non-empty and finds exactly that row. |
| UserServiceProperties.RegisterThenEdit | src/Services/UserService.php:176-214 | When registration can succeed, reading the new user back by its new id gives 200 "Success". The reply holds the new id and the submitted names and email as the form trimmed them. Without an uploaded file it has no avatar. |
| UserServiceProperties.UpdateFound | src/Services/UserService.php:235-258 | Updating an existing id succeeds exactly when every text property ends non-null. It then answers "Data updated successfully" and rewrites only that row. Any failure is a framework exception. |
| UserServiceProperties.UpdateFoundRow | src/Services/UserService.php:243-253 | An update of a known id that can be saved answers "Data updated successfully". Its row holds each submitted text field trimmed and each omitted one unchanged, and every other row is kept. |
| UserServiceProperties.UpdateFoundThrows | src/Services/UserService.php:245-249 | An update of a known id whose submission throws fails with that exception. |
| UserServiceProperties.UpdateDoesNotValidate | src/Services/UserService.php:243-253 | An update that can be saved stores a two-character first name, which registration rejects, and answers 200. |
| UserServiceProperties.UpdateStoresPasswordAsSubmitted | src/Services/UserService.php:245-253 | A password sent to an update that can be saved is stored as the form trimmed it, not encoded. |
| UserServiceProperties.UpdateAllowsDuplicateEmail | src/Services/UserService.php:221-259 | An update that can be saved may give a user another user's email: no uniqueness check runs. |
| UserServiceProperties.UpdateKeepsOmittedFields | src/Services/UserService.php:245-249 | A text field left out of an update that can be saved keeps its stored value. |
| UserServiceProperties.UpdateBlankFieldFails | src/Services/UserService.php:245-253 | An update with a blank text field fails with a framework exception: from the setter for a name or email over a set value, and otherwise from the NULL column at the flush. A blank first name over a stored one fails with `setFirstName`'s type exception. |
| UserServiceProperties.RegisterKeepsDatesOrdered | src/Services/UserService.php:147-168 | If every stored user has ordered dates, so does every user after a registration. This rests on one clock reading per request and on the date children never being written (both under "Left out"). |
| UserServiceProperties.UpdateKeepsDatesOrdered | src/Services/UserService.php:243-253 | A successful update at a clock reading no earlier than the user's last update keeps every user's dates ordered. |
| UserServiceProperties.BlankEmailFailsAtFlush | src/Services/UserService.php:158-168 | A registration with a blank email, whose fields all pass and which carries a password, gets past the uniqueness check and the validation loop and then fails at the flush on the NOT NULL email column. |
| UserServiceProperties.PageOfPosition | src/Services/UserService.php:107-114 | The user at position i appears on page `i / perPage + 1`, and that page is within the page count. |
| UserServiceProperties.PositionInListing | src/Services/UserService.php:107-125 | The user at position i of the id order is listed on page `i / perPage + 1`, which is between 1 and the page count. |
| UserServiceProperties.ListCoversEveryUser | src/Services/UserService.php:101-135 | Every stored user appears on some page between 1 and the page count. |
| UserServiceProperties.PageCountExample | src/Services/UserService.php:114 | 25 users at 10 per page make 3 pages; 0 users make 0 pages; 30 users make 3 pages. |
| UserControllerProperties.RegisterTwiceOverHttp | src/Controller/Api/UserController.php:71-93 | When a first POST registration can succeed it answers 200 "Registered successfully". A second POST with the same non-empty email, sent without surrounding white space, then answers 400 "already registered" and leaves the store unchanged. |
| UserControllerProperties.RegisterThenVerifyOverHttp | src/Controller/Api/UserController.php:156-169 | When a POST registration can succeed it answers 200, and the new user posting the same password to verify-password gets 200 "Success". |
| UserControllerProperties.RegisteredOverHttp | src/Controller/Api/UserController.php:71-93 | A registration that can succeed answers 200 "Registered successfully", and the endpoint keeps the service's new store. |
| UserControllerProperties.VerifiedOverHttp | src/Controller/Api/UserController.php:156-169 | A password the service accepts is rendered as 200 "Success". |
| UserServiceExamples.MessageForFields | src/Services/UserService.php:84-94 | A two-character first name, no last name and no password give the message "First name must be at least 3 characters long, Last name can not be blank, Password can not be blank". |
| UserServiceExamples.ShortNameBound | src/Services/UserService.php:147-155 | Bound over a new entity, the example body leaves the first name "ab" and the last name and password null. |
| UserServiceExamples.ShortNameRejected | src/Services/UserService.php:143-163 | In an empty table the example's email is free, and the first submitted field is the only first rejected one. |
| UserServiceExamples.ShortNameMessage | src/Services/UserService.php:140-163 | Registering only a two-character first name and an email throws 400 with exactly that message. |

## Left out

- JSON decoding is a parameter. A body either decodes to a PHP array of strings or fails with a message. Non-string JSON values (numbers, nested arrays, null) are not modelled.
- The `params` wrapper read by `userList`, `editUser` and `updateUser` is taken as already unwrapped. A body without it (an undefined-key warning in PHP) is not modelled.
- The `getPage`, `getLimit` and `getOffset` helpers come from a pager trait that is not part of this model. The page is taken as at least 1 and the page size as positive.
- `ceil` on a PHP float is modelled as integer ceiling division.
- The set of trimmable characters follows one Unicode version: the Z, Cc and Cf ranges written out in `IsTrimmable`. A character that another PCRE or Unicode version classifies differently is not modelled.
- The `trim` option is taken at its default for every text child, since the form type sets no options.
- The setter's type exception is modelled by the text of one Symfony version's PropertyAccess component. The exact wording varies between versions.
- `findPaginated` is a repository method that is not part of this model. The model takes its listing order to be id order; the source does not fix an order.
- The `id`, `dateCreated`, `dateUpdated` and `imageFile` children are never bound and never fail. Their data transformers, the write of a submitted id the entity has no setter for, and the unknown `file` key are not modelled. In particular, `register` submits with missing fields cleared, so Symfony hands null to the date children and its data mapper would write that null over the constructor's dates. The model keeps the constructor's dates; `UserService.Persist`, `UserService.Register` (through `Registered`) and `RegisterKeepsDatesOrdered` state those dates, not the null the source stores.
- The database is a map. Collation and case folding in the email lookup are not modelled. The coercion of a non-digit id string by the database is not modelled either: such an id finds no row.
- Column lengths (255 characters) are not checked. A value over the limit but within the constraint is stored.
- The upload listener is not modelled: storage, file naming and the image size and type checks. When a file is persisted, the listener writes the generated file name into `avatar`. No operation of the model sets the avatar, so no contract says what it holds after a file was uploaded; `Registered`, `Updated` and `RegisterThenEdit` state the avatar only for requests without a file.
- One clock reading stands for every clock read of a request. The constructor reads the clock twice, for `dateCreated` and `dateUpdated`, and `setImageFile` reads it once more, so in the source a registered user with a file has a `dateUpdated` read after its `dateCreated`. The model gives all three the same `now`, so `Registered` states `dateCreated == dateUpdated`.
- The password encoder is a parameter (`encode`, `isValid`). Hashing is not modelled.
- Reading an unsubmitted password after validation is modelled as a framework exception. This assumes warnings are turned into exceptions, as in debug mode.
- A missing NOT NULL column is modelled as a framework exception with a fixed message. The database driver's own text is not modelled.
- `getSalt`, `eraseCredentials`, `getUsername` and `getUserIdentifier` return nothing the API uses. They are not modelled.
- UserServiceProperties.RegisterSameEmailTwice: holds only for an email sent without surrounding white space. For a padded email the source registers a second row instead, as `PaddedEmailRegistersTwice` states.
- UserServiceProperties.UpdateDoesNotValidate: stated only for an update that can be saved (`Updatable`). A blank field fails before that, as `UpdateBlankFieldFails` states.
- UserServiceProperties.UpdateStoresPasswordAsSubmitted: stated only for an update that can be saved (`Updatable`). A blank field fails before that, as `UpdateBlankFieldFails` states.
- UserServiceProperties.UpdateAllowsDuplicateEmail: stated only for an update that can be saved (`Updatable`). A blank field fails before that, as `UpdateBlankFieldFails` states.
- UserServiceProperties.UpdateKeepsOmittedFields: stated only for an update that can be saved (`Updatable`). A blank field fails before that, as `UpdateBlankFieldFails` states.
- The JWT authenticator is left out; the session user is a parameter. Request method overriding is also left out: the method is a string, and only "POST" counts as POST.
- Rendering to JSON text and HTTP headers are not modelled. The response body is a datatype.
