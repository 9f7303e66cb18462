/**
  Properties of request sequences: what a client observes over several calls
  to the servlet against one store.
*/
module Scenarios {
  import opened Wrappers
  import opened Resource
  import opened Servlet
  import Store
  import Strings

  /** A request for resource `name` with the XML Accept and Content-Type headers set. */
  function XmlRequest(verb: Method, name: string, ifMatch: Option<string>, body: string): Request {
    Request(verb, UriPrefix + name, Some(XmlMediaType), Some(XmlMediaType), ifMatch, body)
  }

  /** A name a client can address: non-empty and holding no copy of the prefix. */
  predicate Addressable(name: string) {
    name != [] && !Strings.Occurs(name, UriPrefix)
  }

  /** PUT of a new resource answers 201 with the body; a following GET returns the same body and the same tag. */
  lemma CreateThenRead(db: Store.Store, name: string, x: string, h: Hasher)
    requires Addressable(name) && name !in db
    ensures var p := Handle(db, XmlRequest(Put, name, None, x), h, Valid);
            var g := Handle(p.db, XmlRequest(Get, name, None, ""), h, Valid);
            && p.response.status == Created && p.response.body == Some(x)
            && g.response.status == Ok && g.response.body == Some(x)
            && g.response.etag == p.response.etag
  {
    ResourceNameOfPrefixed(XmlRequest(Put, name, None, x), name);
    ResourceNameOfPrefixed(XmlRequest(Get, name, None, ""), name);
  }

  /**
    A GET's tag is what an update must present. When the digest separates the
    old text from the new one, the new content gets a new tag.
  */
  lemma UpdateWithCurrentTag(db: Store.Store, name: string, y: string, h: Hasher)
    requires Addressable(name) && name in db
    ensures var g := Handle(db, XmlRequest(Get, name, None, ""), h, Valid);
            var p := Handle(db, XmlRequest(Put, name, g.response.etag, y), h, Valid);
            && g.response.etag.Some?
            && p.response.status == Ok
            && Store.Get(p.db, name) == Some(NewNodeWith(name, y))
            && (h(name + db[name]) != h(name + y) ==> p.response.etag != g.response.etag)
  {
    ResourceNameOfPrefixed(XmlRequest(Get, name, None, ""), name);
    var g := Handle(db, XmlRequest(Get, name, None, ""), h, Valid);
    ResourceNameOfPrefixed(XmlRequest(Put, name, g.response.etag, y), name);
    ETagEqualIffDigestEqual(h, NewNodeWith(name, db[name]), NewNodeWith(name, y));
  }

  /**
    Lost-update prevention: two clients read the same tag; the first update
    wins and the second, still holding the old tag, is refused with 412 and
    changes nothing. This needs the digest to separate the old text from the
    first writer's: a digest that collides on them lets the second write through.
  */
  lemma SecondWriterRefused(db: Store.Store, name: string, y: string, z: string, h: Hasher)
    requires Addressable(name) && name in db
    requires h(name + db[name]) != h(name + y)
    ensures var t := Handle(db, XmlRequest(Get, name, None, ""), h, Valid).response.etag;
            var first := Handle(db, XmlRequest(Put, name, t, y), h, Valid);
            var second := Handle(first.db, XmlRequest(Put, name, t, z), h, Valid);
            && first.response.status == Ok
            && second.response.status == PreconditionFailed
            && second.db == first.db
  {
    UpdateWithCurrentTag(db, name, y, h);
    var t := Handle(db, XmlRequest(Get, name, None, ""), h, Valid).response.etag;
    var first := Handle(db, XmlRequest(Put, name, t, y), h, Valid);
    ResourceNameOfPrefixed(XmlRequest(Put, name, t, z), name);
    assert first.db[name] == y;
  }

  /**
    The converse: when the digest collides on the old text and the first
    writer's, the second writer's stale tag still matches and its update goes
    through, overwriting the first.
  */
  lemma SecondWriterThroughOnCollision(db: Store.Store, name: string, y: string, z: string, h: Hasher)
    requires Addressable(name) && name in db
    requires h(name + db[name]) == h(name + y)
    ensures var t := Handle(db, XmlRequest(Get, name, None, ""), h, Valid).response.etag;
            var first := Handle(db, XmlRequest(Put, name, t, y), h, Valid);
            var second := Handle(first.db, XmlRequest(Put, name, t, z), h, Valid);
            && first.response.status == Ok
            && second.response.status == Ok
            && Store.Get(second.db, name) == Some(NewNodeWith(name, z))
  {
    UpdateWithCurrentTag(db, name, y, h);
    var t := Handle(db, XmlRequest(Get, name, None, ""), h, Valid).response.etag;
    var first := Handle(db, XmlRequest(Put, name, t, y), h, Valid);
    ResourceNameOfPrefixed(XmlRequest(Put, name, t, z), name);
    assert first.db[name] == y;
    ETagEqualIffDigestEqual(h, NewNodeWith(name, db[name]), NewNodeWith(name, y));
  }

  /** PUT to an existing resource without If-Match is refused with 400 and the content stays. */
  lemma UpdateWithoutIfMatch(db: Store.Store, name: string, y: string, h: Hasher)
    requires Addressable(name) && name in db
    ensures var p := Handle(db, XmlRequest(Put, name, None, y), h, Valid);
            p.response.status == BadRequest && p.db == db
  {
    ResourceNameOfPrefixed(XmlRequest(Put, name, None, y), name);
  }

  /** DELETE of an existing resource answers 200 and a following GET answers 404; a repeated DELETE answers 404. */
  lemma DeleteThenGet(db: Store.Store, name: string, h: Hasher)
    requires Addressable(name) && name in db
    ensures var d := Handle(db, XmlRequest(Delete, name, None, ""), h, Valid);
            var g := Handle(d.db, XmlRequest(Get, name, None, ""), h, Valid);
            var d2 := Handle(d.db, XmlRequest(Delete, name, None, ""), h, Valid);
            && d.response.status == Ok
            && g.response.status == NotFound
            && d2.response.status == NotFound && d2.db == d.db
  {
    ResourceNameOfPrefixed(XmlRequest(Delete, name, None, ""), name);
    ResourceNameOfPrefixed(XmlRequest(Get, name, None, ""), name);
  }

  /**
    A body the schema refuses (400) or that the validator fails on (500) is
    never stored: whatever a GET answered before, it answers after.
  */
  lemma InvalidBodyNeverPersists(db: Store.Store, name: string, ifMatch: Option<string>, x: string, h: Hasher, v: Validation)
    requires Addressable(name) && v != Valid
    ensures var p := Handle(db, XmlRequest(Put, name, ifMatch, x), h, v);
            && p.response.status == (if v == Invalid then BadRequest else InternalServerError)
            && Handle(p.db, XmlRequest(Get, name, None, ""), h, Valid)
               == Handle(db, XmlRequest(Get, name, None, ""), h, Valid)
  {
    ResourceNameOfPrefixed(XmlRequest(Put, name, ifMatch, x), name);
  }
}
