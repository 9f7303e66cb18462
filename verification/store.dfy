/**
  The database contract (`IDatabase`) as a finite map from URI to content.
  Keying by URI is what makes a resource "uniquely determined by its URI":
  the map holds at most one content per URI.
*/
module Store {
  import opened Wrappers
  import opened Resource

  type Store = map<string, string>

  /** `get(uri)`: the stored resource with that URI, or None (Java `null`) when there is none. */
  function Get(db: Store, uri: string): (r: Option<Resource>)
    ensures r.None? <==> uri !in db
    ensures r.Some? ==> r.value.uri == uri && r.value.content == Some(db[uri])
  {
    if uri in db then Some(NewNodeWith(uri, db[uri])) else None
  }

  /** `put(r)`: create when r's URI is absent, overwrite when present. */
  function Put(db: Store, r: Resource): (db': Store)
    requires r.content.Some?
    ensures Get(db', r.uri) == Some(r)
    ensures forall u :: u != r.uri ==> Get(db', u) == Get(db, u)
    ensures db'.Keys == db.Keys + {r.uri}
  {
    db[r.uri := r.content.value]
  }

  /** The store after a delete, and whether a resource was actually removed. */
  datatype Removal = Removal(db: Store, removed: bool)

  /** `delete(uri)`: true exactly when a resource with that URI was there and is now gone. */
  function Delete(db: Store, uri: string): (d: Removal)
    ensures d.removed <==> uri in db
    ensures Get(d.db, uri).None?
    ensures forall u :: u != uri ==> Get(d.db, u) == Get(db, u)
    ensures !d.removed ==> d.db == db
  {
    if uri in db then Removal(db - {uri}, true) else Removal(db, false)
  }

  /** `delete(resource)`: removes whatever is stored under the resource's URI, whatever its content. */
  function DeleteResource(db: Store, r: Resource): (d: Removal)
    ensures d.removed <==> r.uri in db
    ensures Get(d.db, r.uri).None?
    ensures forall u :: u != r.uri ==> Get(d.db, u) == Get(db, u)
    ensures !d.removed ==> d.db == db
  {
    Delete(db, r.uri)
  }

  /** After a put, a get of the same URI reads back the content that was put. */
  lemma PutThenGet(db: Store, uri: string, content: string)
    ensures Get(Put(db, NewNodeWith(uri, content)), uri) == Some(NewNodeWith(uri, content))
  {
  }

  /** Putting the same resource twice is the same as putting it once. */
  lemma PutIdempotent(db: Store, r: Resource)
    requires r.content.Some?
    ensures Put(Put(db, r), r) == Put(db, r)
  {
  }

  /** A put followed by a delete of the same URI leaves the store as if the URI had been deleted. */
  lemma PutThenDelete(db: Store, r: Resource)
    requires r.content.Some?
    ensures Delete(Put(db, r), r.uri).db == Delete(db, r.uri).db
    ensures Delete(Put(db, r), r.uri).removed
  {
  }
}
