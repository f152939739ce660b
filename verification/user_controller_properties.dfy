/**
 * Properties of the endpoints as a client sees them: the rendered bodies of
 * a sequence of requests.
 */
module UserControllerProperties {
  import opened Wrappers
  import opened Http
  import opened PhpArray
  import opened PhpString
  import opened UserEntity
  import opened UserConstraints
  import opened UserForm
  import opened UserStore
  import opened UserService
  import opened UserController
  import UserServiceProperties

  /**
   * A second POST registration with an email already registered, sent
   * without surrounding white space, answers 400 with the uniqueness message
   * and leaves the store as it was.
   */
  lemma {:induction false} RegisterTwiceOverHttp(s: Store, first: Payload, second: Payload, file: Option<File>, file2: Option<File>, enc: Encoder, now: Instant, later: Instant)
    requires Valid(s)
    requires Registrable(s, first)
    requires Get(second, EMAIL) == Get(first, EMAIL) && !IsEmptyOpt(Get(first, EMAIL))
    requires Trim(Get(first, EMAIL).value) == Get(first, EMAIL).value
    ensures UserController.Register(Request("POST", Json(first), file), s, enc, now).0 == Done(HTTP_OK, REGISTERED)
    ensures var r := UserController.Register(Request("POST", Json(first), file), s, enc, now).1;
      UserController.Register(Request("POST", Json(second), file2), r, enc, later) == (Status(HTTP_BAD_REQUEST, EMAIL_TAKEN), r)
  {
    UserServiceProperties.RegisterSameEmailTwice(s, first, second, file, file2, enc, now, later);
  }

  /** A POST to `verifyPassword` carrying only `password`. */
  function PasswordCheck(plain: string): Request<Payload> {
    var body: Payload := [(PASSWORD, plain)];
    Request("POST", Json(body), None)
  }

  /**
   * Once registered, the new user logged in and sending the same password
   * to `verifyPassword` gets `{status: 200, message: "Success"}`.
   */
  lemma {:induction false} RegisterThenVerifyOverHttp(s: Store, body: Payload, file: Option<File>, enc: Encoder, now: Instant)
    requires Valid(s) && Sound(enc) && Registrable(s, body)
    ensures Has(body, PASSWORD)
    ensures UserController.Register(Request("POST", Json(body), file), s, enc, now).0 == Done(HTTP_OK, REGISTERED)
    ensures var r := UserController.Register(Request("POST", Json(body), file), s, enc, now).1;
      && s.nextId in r.users
      && UserController.VerifyPassword(PasswordCheck(Get(body, PASSWORD).value), Some(r.users[s.nextId]), enc) == Status(HTTP_OK, SUCCESS)
  {
    var r := RegisteredOverHttp(s, body, file, enc, now);
    var plain := RegisteredPassword(s, body, file, enc, now, r);
    VerifiedOverHttp(r.users[s.nextId], plain, enc);
  }

  /** The password a registration was sent with, and what the service says when it is checked against the new row. */
  lemma {:induction false} RegisteredPassword(s: Store, body: Payload, file: Option<File>, enc: Encoder, now: Instant, r: Store) returns (plain: string)
    requires Valid(s) && Sound(enc) && Registrable(s, body)
    requires UserService.Register(s, Json(body), file, enc, now) == Returned(r)
    ensures s.nextId in r.users && Has(body, PASSWORD) && plain == Get(body, PASSWORD).value
    ensures var check: Payload := [(PASSWORD, plain)];
      UserService.VerifyPassword(Some(r.users[s.nextId]), Json(check), enc) == Returned(Reply(HTTP_OK, SUCCESS))
  {
    UserServiceProperties.RegisterThenVerifyPassword(s, body, file, enc, now);
    plain := Get(body, PASSWORD).value;
  }

  /** A registration the service accepts renders as `{status: 200, message: "Registered successfully"}` with the service's store. */
  lemma RegisteredOverHttp(s: Store, body: Payload, file: Option<File>, enc: Encoder, now: Instant) returns (r: Store)
    requires Valid(s) && Registrable(s, body)
    ensures UserService.Register(s, Json(body), file, enc, now) == Returned(r)
    ensures UserController.Register(Request("POST", Json(body), file), s, enc, now) == (Done(HTTP_OK, REGISTERED), r)
  {
    r := UserService.Register(s, Json(body), file, enc, now).value;
  }

  /** A password the service accepts renders as `{status: 200, message: "Success"}`. */
  lemma VerifiedOverHttp(u: User, plain: string, enc: Encoder)
    requires var check: Payload := [(PASSWORD, plain)];
      UserService.VerifyPassword(Some(u), Json(check), enc) == Returned(Reply(HTTP_OK, SUCCESS))
    ensures UserController.VerifyPassword(PasswordCheck(plain), Some(u), enc) == Status(HTTP_OK, SUCCESS)
  {
  }
}
