/**
  The request handlers of `StorageInterfaceServlet`: GET, PUT, DELETE and POST
  over the store, as pure functions from (store, request) to (store, response).

  Each handler validates the resource name, then headers, then (PUT only) the
  body, and touches the store only after every check has passed. The XML
  schema validator is an oracle: its outcome for the request's body is passed
  in as `v`. The digest behind the ETag is the parameter `h`.
*/
module Servlet {
  import opened Wrappers
  import opened Resource
  import Store
  import Strings

  /** The path prefix under which the servlet is mounted. */
  const UriPrefix: string := "/StorageInterface/!SI/"

  /** The only media type accepted (Accept) and read (Content-Type). */
  const XmlMediaType: string := "application/xml"

  datatype Method = Get | Put | Delete | Post

  /** A request: the absent headers are None (Java `getHeader` returns `null`). */
  datatype Request = Request(
    verb: Method,
    uri: string,
    accept: Option<string>,
    contentType: Option<string>,
    ifMatch: Option<string>,
    body: string)

  /** The HTTP status codes the servlet sends. */
  datatype Status =
    | Ok                  // 200
    | Created             // 201
    | BadRequest          // 400
    | NotFound            // 404
    | PreconditionFailed  // 412
    | InternalServerError // 500
    | NotImplemented      // 501

  /** The status, the written body and the ETag header of a response. */
  datatype Response = Response(status: Status, body: Option<string>, etag: Option<string>)

  /** The store after a request and the response sent. */
  datatype Outcome = Outcome(db: Store.Store, response: Response)

  /** What the XML schema check says about a body: conforms, does not conform, or the validator failed. */
  datatype Validation = Valid | Invalid | ValidatorError

  /**
    A response with a status and no body or ETag: what `sendError(status, message)`
    sends (the message is not modelled), and DELETE's plain `setStatus(200)`.
  */
  function Bare(s: Status): Response {
    Response(s, None, None)
  }

  /** `getResourceName`: every copy of the prefix is removed from the request URI. */
  function ResourceName(req: Request): (name: string)
    ensures |name| <= |req.uri|
    ensures Strings.OccursAt(req.uri, UriPrefix, 0) ==> |name| <= |req.uri| - |UriPrefix|
    ensures !Strings.Occurs(req.uri, UriPrefix) ==> name == req.uri
  {
    if !Strings.Occurs(req.uri, UriPrefix) then
      Strings.RemoveAllAbsent(req.uri, UriPrefix);
      Strings.RemoveAll(req.uri, UriPrefix)
    else
      Strings.RemoveAll(req.uri, UriPrefix)
  }

  /** `isAcceptHeaderValid`. */
  function AcceptValid(req: Request): (ok: bool)
    ensures ok <==> req.accept == Some(XmlMediaType)
  {
    req.accept.Some? && req.accept.value == XmlMediaType
  }

  /** `isContentTypeHeaderValid`: parameters after the media type are allowed. */
  function ContentTypeValid(req: Request): (ok: bool)
    ensures ok <==> exists params :: req.contentType == Some(XmlMediaType + params)
  {
    var prefixed := req.contentType.Some? && XmlMediaType <= req.contentType.value;
    assert prefixed ==> req.contentType.value == XmlMediaType + req.contentType.value[|XmlMediaType|..];
    prefixed
  }

  /** `isIfMatchHeaderPresent`. */
  function IfMatchPresent(req: Request): (present: bool)
    ensures present <==> req.ifMatch != None
  {
    req.ifMatch.Some?
  }

  /** `isIfMatchHeaderValid`: plain string equality with the current tag, no wildcard or weak tags. */
  function IfMatchValid(req: Request, tag: string): (ok: bool)
    requires IfMatchPresent(req)
    ensures ok <==> req.ifMatch == Some(tag)
  {
    req.ifMatch.value == tag
  }

  /** A URI made of the prefix and a name holding no copy of the prefix names that resource. */
  lemma ResourceNameOfPrefixed(req: Request, n: string)
    requires req.uri == UriPrefix + n
    requires !Strings.Occurs(n, UriPrefix)
    ensures ResourceName(req) == n
  {
    Strings.StripLeading(UriPrefix, n);
  }

  /**
    Every copy of the prefix is removed, not only the leading one: a URI
    prefix + a + prefix + b names the resource a + b, when neither part holds a
    copy of the prefix and none starts in a and runs into the middle copy.
  */
  lemma ResourceNameJoinsAroundPrefix(req: Request, a: string, b: string)
    requires req.uri == UriPrefix + a + UriPrefix + b
    requires !Strings.Occurs(a, UriPrefix) && !Strings.Occurs(b, UriPrefix)
    requires Strings.NoStraddle(a, UriPrefix)
    ensures ResourceName(req) == a + b
  {
    assert req.uri == UriPrefix + (a + UriPrefix + b);
    Strings.RemoveAllLeading(UriPrefix, a + UriPrefix + b);
    Strings.RemoveAllAround(a, UriPrefix, b);
    Strings.RemoveAllAbsent(a, UriPrefix);
    Strings.RemoveAllAbsent(b, UriPrefix);
  }

  /** So the URIs prefix + "a" + prefix + "b" and prefix + "ab" address the same resource "ab". */
  lemma ResourceNameRemovesEveryCopy(req1: Request, req2: Request)
    requires req1.uri == UriPrefix + "a" + UriPrefix + "b"
    requires req2.uri == UriPrefix + "ab"
    ensures ResourceName(req1) == "ab" == ResourceName(req2)
  {
    assert Strings.NoStraddle("a", UriPrefix) by {
      assert ("a" + UriPrefix)[0] != UriPrefix[0];
    }
    ResourceNameJoinsAroundPrefix(req1, "a", "b");
    Strings.StripLeading(UriPrefix, "ab");
  }

  /** A request whose resource name is empty is refused with 400 before the store is consulted. */
  lemma EmptyNameRejected(db: Store.Store, req: Request, h: Hasher, v: Validation)
    requires ResourceName(req) == []
    requires req.verb != Post
    ensures Handle(db, req, h, v) == Outcome(db, Bare(BadRequest))
  {
  }

  // ------------------------------------------------------------------ GET

  function DoGet(db: Store.Store, req: Request, h: Hasher): (o: Outcome)
    ensures o.db == db
    ensures o.response.status in {Ok, BadRequest, NotFound}
    ensures o.response.status == BadRequest <==>
              ResourceName(req) == [] || !AcceptValid(req)
    ensures o.response.status == NotFound <==>
              ResourceName(req) != [] && AcceptValid(req) && ResourceName(req) !in db
    ensures o.response.status == Ok ==>
              var name := ResourceName(req);
              name in db &&
              o.response.body == Some(db[name]) &&
              o.response.etag == Some(ETag(h, NewNodeWith(name, db[name])))
    ensures o.response.status != Ok ==> o.response == Bare(o.response.status)
  {
    var name := ResourceName(req);
    if name == [] then Outcome(db, Bare(BadRequest))
    else if !AcceptValid(req) then Outcome(db, Bare(BadRequest))
    else
      match Store.Get(db, name)
      case None => Outcome(db, Bare(NotFound))
      case Some(node) => Outcome(db, Response(Ok, node.content, Some(ETag(h, node))))
  }

  // ------------------------------------------------------------------ DELETE

  function DoDelete(db: Store.Store, req: Request): (o: Outcome)
    ensures o.response.status in {Ok, BadRequest, NotFound}
    ensures o.response.status == BadRequest <==> ResourceName(req) == []
    ensures o.response.status == NotFound <==> ResourceName(req) != [] && ResourceName(req) !in db
    ensures o.response.status == Ok ==>
              ResourceName(req) in db &&
              ResourceName(req) !in o.db &&
              forall u :: u != ResourceName(req) ==> Store.Get(o.db, u) == Store.Get(db, u)
    ensures o.response.status != Ok ==> o.db == db
    ensures o.response == Bare(o.response.status)
  {
    var name := ResourceName(req);
    if name == [] then Outcome(db, Bare(BadRequest))
    else
      match Store.Get(db, name)
      case None => Outcome(db, Bare(NotFound))
      case Some(node) =>
        var d := Store.DeleteResource(db, node);
        if d.removed then Outcome(d.db, Bare(Ok))
        else Outcome(d.db, Bare(InternalServerError))
  }

  // ------------------------------------------------------------------ POST

  /** POST is not supported: 501 whatever the request says. */
  function DoPost(db: Store.Store, req: Request): (o: Outcome)
    ensures o.db == db && o.response == Bare(NotImplemented)
  {
    Outcome(db, Bare(NotImplemented))
  }

  // ------------------------------------------------------------------ PUT

  /** The name and header checks that every PUT must pass first. */
  predicate PutHeadersValid(req: Request) {
    ResourceName(req) != [] && AcceptValid(req) && ContentTypeValid(req)
  }

  /** The checks that run before the store is read, all passed. */
  predicate PutRequestWellFormed(req: Request, v: Validation) {
    && PutHeadersValid(req)
    && v == Valid
  }

  /** A PUT is accepted: well formed, and an existing resource is named by its current tag. */
  predicate PutAccepted(db: Store.Store, req: Request, h: Hasher, v: Validation) {
    var name := ResourceName(req);
    && PutRequestWellFormed(req, v)
    && (name in db ==> req.ifMatch == Some(ETag(h, NewNodeWith(name, db[name]))))
  }

  /** Store the body under `name`, read it back and respond with it (the tail shared by create and update). */
  function Persist(db: Store.Store, name: string, body: string, h: Hasher, update: bool): (o: Outcome)
    ensures o.db.Keys == db.Keys + {name}
    ensures Store.Get(o.db, name) == Some(NewNodeWith(name, body))
    ensures forall u :: u != name ==> Store.Get(o.db, u) == Store.Get(db, u)
    ensures o.response.status == (if update then Ok else Created)
    ensures o.response.body == Some(body)
    ensures o.response.etag == Some(ETag(h, NewNodeWith(name, body)))
  {
    var saving := SetContent(NewNode(name), body);
    var db' := Store.Put(db, saving);
    match Store.Get(db', name)
    case None => Outcome(db', Bare(InternalServerError))
    case Some(saved) =>
      Outcome(db', Response(if update then Ok else Created, saved.content, Some(ETag(h, saved))))
  }

  function DoPut(db: Store.Store, req: Request, h: Hasher, v: Validation): (o: Outcome)
    ensures o.response.status in {Ok, Created, BadRequest, PreconditionFailed, InternalServerError}
    // success, and what it does to the store
    ensures o.response.status in {Ok, Created} <==> PutAccepted(db, req, h, v)
    ensures PutAccepted(db, req, h, v) ==>
              var name := ResourceName(req);
              && Store.Get(o.db, name) == Some(NewNodeWith(name, req.body))
              && (forall u :: u != name ==> Store.Get(o.db, u) == Store.Get(db, u))
              && o.response.body == Some(req.body)
              && o.response.etag == Some(ETag(h, NewNodeWith(name, req.body)))
    ensures o.response.status == Created <==> PutAccepted(db, req, h, v) && ResourceName(req) !in db
    // every failure leaves the store as it was and sends no body or tag
    ensures !PutAccepted(db, req, h, v) ==> o.db == db && o.response == Bare(o.response.status)
    // the individual failures
    ensures o.response.status == InternalServerError <==>
              PutHeadersValid(req) && v == ValidatorError
    ensures o.response.status == PreconditionFailed <==>
              && PutRequestWellFormed(req, v)
              && ResourceName(req) in db
              && req.ifMatch.Some?
              && req.ifMatch.value != ETag(h, NewNodeWith(ResourceName(req), db[ResourceName(req)]))
    ensures PutHeadersValid(req) && v == Invalid ==>
              o.response.status == BadRequest
    ensures PutRequestWellFormed(req, v) && ResourceName(req) in db && req.ifMatch.None? ==>
              o.response.status == BadRequest
  {
    var name := ResourceName(req);
    if name == [] then Outcome(db, Bare(BadRequest))
    else if !AcceptValid(req) then Outcome(db, Bare(BadRequest))
    else if !ContentTypeValid(req) then Outcome(db, Bare(BadRequest))
    else
      match v
      case ValidatorError => Outcome(db, Bare(InternalServerError))
      case Invalid => Outcome(db, Bare(BadRequest))
      case Valid =>
        match Store.Get(db, name)
        case Some(node) =>
          if !IfMatchPresent(req) then Outcome(db, Bare(BadRequest))
          else if !IfMatchValid(req, ETag(h, node)) then Outcome(db, Bare(PreconditionFailed))
          else Persist(db, name, req.body, h, true)
        case None => Persist(db, name, req.body, h, false)
  }

  // ------------------------------------------------------------------ dispatch

  /**
    One request through the servlet. The store changes only on a successful
    PUT or DELETE; every other response leaves it exactly as it was.
  */
  function Handle(db: Store.Store, req: Request, h: Hasher, v: Validation): (o: Outcome)
    ensures o.db != db ==>
              || (req.verb == Put && o.response.status in {Ok, Created})
              || (req.verb == Delete && o.response.status == Ok)
    ensures o.response.status == InternalServerError ==> req.verb == Put && v == ValidatorError
    ensures req.verb == Post ==> o == Outcome(db, Bare(NotImplemented))
    ensures req.verb == Get ==> o.db == db
    ensures o.response.status == NotImplemented <==> req.verb == Post
  {
    match req.verb
    case Get => DoGet(db, req, h)
    case Put => DoPut(db, req, h, v)
    case Delete => DoDelete(db, req)
    case Post => DoPost(db, req)
  }
}
