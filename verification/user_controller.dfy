/**
 * `UserController`: each endpoint as a function from the request (and the
 * store) to the flat JSON body it renders, plus the store it leaves.
 */
module UserController {
  import opened Wrappers
  import opened Http
  import opened UserEntity
  import opened UserStore
  import opened UserForm
  import opened UserService

  const INVALID_METHOD: string := "Invalid Method"
  const REGISTERED: string := "Registered successfully"

  /** Page and page size as the pager hands them to `userList`. */
  datatype Paging = Paging(page: int, perPage: int)

  /** The parts of an HTTP request the endpoints read. */
  datatype Request<T> = Request(verb: string, body: Decoded<T>, file: Option<File>)

  /** The rendered JSON bodies; every one is a flat object. */
  datatype Body =
    | Status(status: int, message: string)                     // {status, message}
    | StatusData(status: int, message: string, data: EditData) // {status, message, data}
    | Done(status: int, text: string)                          // {status, data}
    | Page(listing: Listing)                                   // {page, per_page, total, total_pages, data}

  /** `$request->isMethod('post')` */
  predicate IsPost(verb: string) {
    verb == "POST"
  }

  /** The `catch (\Exception $e)` branch shared by every endpoint. */
  function Caught(e: Exception): Body {
    Status(HTTP_BAD_REQUEST, e.message)
  }

  /** `index`: only POST lists; a body that does not decode makes `userList` throw. */
  function Index(req: Request<Paging>, s: Store): (r: Body)
    requires Valid(s)
    requires req.body.Json? ==> req.body.value.page >= 1 && req.body.value.perPage > 0
    ensures !IsPost(req.verb) ==> r == Status(HTTP_BAD_REQUEST, INVALID_METHOD)
    ensures IsPost(req.verb) && req.body.Undecodable? ==> r == Status(HTTP_BAD_REQUEST, req.body.reason)
    ensures IsPost(req.verb) && req.body.Json? ==>
      r == Page(UserList(s, req.body.value.page, req.body.value.perPage))
    ensures IsPost(req.verb) && req.body.Json? ==>
      r.Page? && r.listing.page == req.body.value.page && r.listing.total == |s.users|
  {
    if !IsPost(req.verb) then Status(HTTP_BAD_REQUEST, INVALID_METHOD)
    else
      match req.body
      case Undecodable(reason) => Caught(FrameworkException(reason))
      case Json(p) => Page(UserList(s, p.page, p.perPage))
  }

  /** `register`: only POST registers; success answers with data, failure with the exception text. */
  function Register(req: Request<Payload>, s: Store, enc: Encoder, now: Instant): (r: (Body, Store))
    requires Valid(s)
    ensures Valid(r.1)
    ensures !IsPost(req.verb) ==> r == (Status(HTTP_BAD_REQUEST, INVALID_METHOD), s)
    ensures IsPost(req.verb) ==>
      var o := UserService.Register(s, req.body, req.file, enc, now);
      && (o.Threw? ==> r == (Status(HTTP_BAD_REQUEST, o.error.message), s))
      && (o.Returned? ==> r == (Done(HTTP_OK, REGISTERED), o.value))
  {
    if !IsPost(req.verb) then (Status(HTTP_BAD_REQUEST, INVALID_METHOD), s)
    else
      match UserService.Register(s, req.body, req.file, enc, now)
      case Threw(e) => (Caught(e), s)
      case Returned(next) => (Done(HTTP_OK, REGISTERED), next)
  }

  /** `editUser`: the service's status, message and data, whatever the method. */
  function EditUser(req: Request<Payload>, s: Store): (r: Body)
    ensures var o := UserService.EditUser(s, req.body);
      && (o.Threw? ==> r == Status(HTTP_BAD_REQUEST, o.error.message))
      && (o.Returned? ==> r == StatusData(o.value.status, o.value.message, o.value.data))
  {
    match UserService.EditUser(s, req.body)
    case Threw(e) => Caught(e)
    case Returned(reply) => StatusData(reply.status, reply.message, reply.data)
  }

  /** `updateUser`: only the service's status and message, whatever the method. */
  function UpdateUser(req: Request<Payload>, s: Store, now: Instant): (r: (Body, Store))
    requires Valid(s)
    ensures Valid(r.1)
    ensures r.0.Status?
    ensures var o := UserService.UpdateUser(s, req.body, req.file, now);
      && (o.Threw? ==> r == (Status(HTTP_BAD_REQUEST, o.error.message), s))
      && (o.Returned? ==> r == (Status(o.value.0.status, o.value.0.message), o.value.1))
  {
    match UserService.UpdateUser(s, req.body, req.file, now)
    case Threw(e) => (Caught(e), s)
    case Returned((reply, next)) => (Status(reply.status, reply.message), next)
  }

  /** `verifyPassword`: the service's envelope as it is, whatever the method. */
  function VerifyPassword(req: Request<Payload>, session: Option<User>, enc: Encoder): (r: Body)
    ensures r.Status?
    ensures var o := UserService.VerifyPassword(session, req.body, enc);
      && (o.Threw? ==> r == Status(HTTP_BAD_REQUEST, o.error.message))
      && (o.Returned? ==> r == Status(o.value.status, o.value.message))
  {
    match UserService.VerifyPassword(session, req.body, enc)
    case Threw(e) => Caught(e)
    case Returned(reply) => Status(reply.status, reply.message)
  }
}
