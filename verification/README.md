# Storage Interface: resource lifecycle protocol in Dafny

This project models the core of the "Storage Interface" servlet. The servlet
keeps a flat namespace of named XML text resources and serves them over HTTP:

- GET reads a resource and its ETag.
- PUT creates a resource, or updates it when the request's If-Match names the current ETag.
- DELETE removes a resource.
- POST is refused.

The model is functional. The store is an immutable `map<string, string>` from
URI to content. Each handler is a pure function from (store, request) to
(store, response). The XML schema validator is an oracle whose outcome is
passed in, and the digest behind the ETag is a function parameter.

Resources are values. So `getURI`, `getContent` and `getETag` are field reads or
pure functions, and by construction they cannot change the resource they observe.

Modules (one per file):

- `Wrappers` (`wrappers.dfy`): `Option`, standing for Java `null`.
- `Hex` (`hex.dfy`): lowercase base16, as in section 8 of RFC 4648 with the
  lowercase alphabet. This is what Commons Codec `Hex.encodeHex` produces. It
  comes with a decoder, and round trips are proved in both directions.
- `Strings` (`strings.dfy`): Java `String.replace(target, "")`. It removes
  every non-overlapping copy of the target, scanning left to right.
- `Resource` (`resource.dfy`): the `IResource`/`SINode` record, its two
  constructors, `setContent`, and `getETag` as hex(h(uri + content)).
- `Store` (`store.dfy`): the `IDatabase` contract as operations on a finite map.
- `Servlet` (`servlet.dfy`): the request and response types, the header
  checks, `getResourceName`, and `doGet`/`doPut`/`doDelete`/`doPost` plus a dispatcher.
- `Scenarios` (`scenarios.dfy`): what a client observes across several requests.

The code behaves as follows where a reader might expect otherwise:

- The ETag hashes the concatenation `uri + content` with no separator. So
  ("ab", "c") and ("a", "bc") get the same tag under every digest
  (`Resource.ETagSplitCollision`). Where the digest does separate two
  concatenated texts, the tags tell those texts apart, but that is all a tag
  identifies (`Resource.ETagIdentifiesText`). No digest onto 32 bytes separates
  every pair of strings, so each property that needs distinct tags assumes the
  digest separates the particular texts involved.
- A node whose content was never assigned is tagged as if its content were
  the text "null", because that is how Java concatenation prints a null
  (`Resource.ETagOfUnsetContent`).
- The resource name is the request URI with every copy of
  "/StorageInterface/!SI/" removed, not just the leading one. As a result,
  prefix + "a" + prefix + "b" and prefix + "ab" address the same resource
  (`Servlet.ResourceNameRemovesEveryCopy`).
- If-Match is compared by plain string equality with the current tag. There
  is no `*`, no quoted form and no weak tag.
- With a store that honours the `IDatabase` contract, two 500 branches
  cannot be reached: the one in DELETE (delete reports false after a
  successful get) and the one in PUT (re-read miss after a put). The
  handlers' contracts prove this.

## Model

| member | source | states |
|---|---|---|
| `Hex.Encode` | SINode.java:98-100 | the tag text has two characters per digest byte, all in 0-9a-f, and position 2i/2i+1 hold the alphabet digits of the high/low nibble of byte i |
| `Hex.Decode` | SINode.java:100 | a string decodes exactly when it has even length and only lowercase hex characters, giving half as many bytes |
| `Hex.DecodeEncode` | SINode.java:100 | decoding the hex encoding of any byte string recovers the bytes |
| `Hex.EncodeDecode` | SINode.java:100 | every even-length lowercase hex string is the encoding of what it decodes to |
| `Hex.EncodeInjective` | SINode.java:100 | distinct digests never get the same hex text |
| `Strings.RemoveAll` | StorageInterfaceServlet.java:290 | replace-all never lengthens the URI, and a leading copy of the prefix shortens it by at least the prefix length (the value is pinned by the three lemmas below) |
| `Strings.RemoveAllAbsent` | StorageInterfaceServlet.java:290 | a string holding no copy of the target comes through replace-all unchanged |
| `Strings.RemoveAllLeading` | StorageInterfaceServlet.java:290 | a leading copy of the target is removed and the scan continues after it |
| `Strings.RemoveAllAround` | StorageInterfaceServlet.java:290 | a copy of the target in the middle is removed as well: replace-all on a + target + b is replace-all on a followed by replace-all on b, when no copy of the target starts in a and runs into the middle copy |
| `Strings.StripLeading` | StorageInterfaceServlet.java:287-293 | for prefix + n with no copy of the prefix in n, the result is n |
| `Resource.NewNode` | SINode.java:24-27 | the one-argument constructor fixes the URI and leaves the content unset (null) |
| `Resource.SetContent` | SINode.java:45-48 | setContent replaces the content and leaves the URI unchanged |
| `Resource.NewNodeWith` | SINode.java:34-38 | the two-argument constructor yields getURI() == uri and getContent() == content |
| `Resource.TaggedText` | SINode.java:74 | the text that is hashed starts with the URI and continues with the content, or with "null" when no content was set |
| `Resource.ETag` | SINode.java:72-103 | the ETag is 64 lowercase hex characters, and hex-decoding it gives back the digest of uri + content |
| `Resource.ETagOfText` | SINode.java:74 | two resources whose uri + content texts are equal get equal tags |
| `Resource.ETagEqualIffDigestEqual` | SINode.java:98-100 | two tags are equal exactly when the two digests are equal |
| `Resource.ETagIdentifiesText` | SINode.java:74-100 | when the digest separates the two concatenated texts, the tags are equal exactly when those texts are equal, not when the (uri, content) pairs are |
| `Resource.ETagSplitCollision` | SINode.java:74 | ("ab","c") and ("a","bc") have the same tag under every digest |
| `Resource.ETagOfUnsetContent` | SINode.java:74 | a node without content is tagged like one whose content is the text "null" |
| `Store.Get` | IDatabase.java:20-25 | get returns null exactly when the URI is absent; otherwise a resource with that URI and the stored content |
| `Store.Put` | IDatabase.java:11-18 | put creates or overwrites: afterwards get returns the resource put, every other URI reads as before, and the URI set grows by at most that URI |
| `Store.Delete` | IDatabase.java:35-41 | delete(uri) reports true exactly when the URI was present; afterwards get(uri) is null, other URIs are unchanged, and a false result leaves the store as it was |
| `Store.DeleteResource` | IDatabase.java:27-33 | delete(resource) removes whatever is stored under the resource's URI, with the same result and effect as delete by URI |
| `Store.PutThenGet` | IDatabase.java:11-25 | a get after a put of (uri, content) returns that content |
| `Store.PutIdempotent` | IDatabase.java:11-18 | putting the same resource twice leaves the store as one put does |
| `Store.PutThenDelete` | IDatabase.java:11-41 | deleting a URI right after putting it reports true and leaves the store as deleting it without the put |
| `Servlet.ResourceName` | StorageInterfaceServlet.java:287-293 | the resource name is never longer than the request URI, a leading prefix shortens it by at least the prefix length, and a URI holding no copy of the prefix is taken whole |
| `Servlet.AcceptValid` | StorageInterfaceServlet.java:312-322 | Accept is valid exactly when it is present and equal to "application/xml" |
| `Servlet.ContentTypeValid` | StorageInterfaceServlet.java:325-335 | Content-Type is valid exactly when it is present and is "application/xml" followed by anything (such as "; charset=UTF-8") |
| `Servlet.IfMatchPresent` | StorageInterfaceServlet.java:338-348 | If-Match counts as present exactly when the header is not null |
| `Servlet.IfMatchValid` | StorageInterfaceServlet.java:351-356 | a present If-Match is valid exactly when it equals the given tag as a string |
| `Servlet.ResourceNameOfPrefixed` | StorageInterfaceServlet.java:287-293 | for a request URI prefix + n with no copy of the prefix in n, the resource name is n |
| `Servlet.ResourceNameJoinsAroundPrefix` | StorageInterfaceServlet.java:287-293 | a request URI prefix + a + prefix + b names the resource a + b, when neither part holds a copy of the prefix and none straddles the middle copy |
| `Servlet.ResourceNameRemovesEveryCopy` | StorageInterfaceServlet.java:290 | prefix + "a" + prefix + "b" and prefix + "ab" both name the resource "ab" |
| `Servlet.EmptyNameRejected` | StorageInterfaceServlet.java:82-177 | GET, PUT and DELETE with an empty resource name answer 400 and leave the store unchanged, whatever it holds |
| `Servlet.DoGet` | StorageInterfaceServlet.java:79-117 | GET never changes the store; 400 exactly for an empty name or an Accept other than exactly application/xml; 404 exactly when the name is absent; 200 with the stored content and the tag of (name, content) |
| `Servlet.DoDelete` | StorageInterfaceServlet.java:123-154 | 400 exactly for an empty name, 404 exactly when absent with the store unchanged, and otherwise 200 with the name removed and all other names unchanged; 500 cannot occur |
| `Servlet.DoPost` | StorageInterfaceServlet.java:158-163 | POST answers 501 to every request and leaves the store unchanged |
| `Servlet.Persist` | StorageInterfaceServlet.java:249-281 | after the write, name maps to the body and other names are unchanged; the response is 200 for an update or 201 for a create, with the re-read body and its tag; the re-read-miss 500 cannot occur |
| `Servlet.DoPut` | StorageInterfaceServlet.java:168-283 | a PUT succeeds exactly when the name is non-empty, Accept equals application/xml, Content-Type starts with it, the body is valid, and an existing resource is named by its current tag. On success: 201 exactly when the name was absent, the store maps name to body and nothing else changes. Every failure leaves the store unchanged: 500 exactly for a validator failure, 412 exactly for a present but different If-Match, and 400 for an invalid body or a missing If-Match on an existing name |
| `Servlet.Handle` | StorageInterfaceServlet.java:79-283 | the store changes only on a 200/201 PUT or a 200 DELETE; 500 arises only from a failing validator on PUT; 501 exactly for POST |
| `Scenarios.CreateThenRead` | StorageInterfaceServlet.java:244-281 | PUT of a new name answers 201 with the body, and a following GET answers 200 with the same body and the same ETag |
| `Scenarios.UpdateWithCurrentTag` | StorageInterfaceServlet.java:226-237 | a PUT carrying the tag from a GET answers 200 and stores the new content; when the digest separates name + old content from name + new content, the new tag differs from the old |
| `Scenarios.SecondWriterRefused` | StorageInterfaceServlet.java:228-236 | of two writers holding the same tag, the first update wins and the second gets 412 and changes nothing, when the digest separates name + old content from name + the first writer's content |
| `Scenarios.SecondWriterThroughOnCollision` | StorageInterfaceServlet.java:228-236 | when the digest collides on those two texts, the second writer's stale tag still matches, its PUT answers 200 and its content replaces the first writer's |
| `Scenarios.UpdateWithoutIfMatch` | StorageInterfaceServlet.java:238-242 | PUT to an existing name without If-Match answers 400 and leaves the store unchanged |
| `Scenarios.DeleteThenGet` | StorageInterfaceServlet.java:135-153 | DELETE of an existing name answers 200, then GET answers 404 and a second DELETE answers 404 without change |
| `Scenarios.InvalidBodyNeverPersists` | StorageInterfaceServlet.java:199-217 | a schema-invalid body answers 400 and a validator failure 500, and a GET afterwards answers exactly as before |

## Left out

- The digest: SHA-256 (SINode.java:91, 98) and the UTF-8 encoding of the text (SINode.java:80) are not modelled. Together they are the parameter `h` of type `Resource.Hasher`, returning 32 bytes. The exception handlers that only print a stack trace are left out with them.
- XML schema validation (`isValid`, StorageInterfaceServlet.java:360-382): schema loading, file I/O and SAX parsing are replaced by the three-valued outcome `Servlet.Validation` (valid, invalid, validator failure), passed to the PUT handler.
- Reading the request body (`getRequestBody`, StorageInterfaceServlet.java:296-309): a request's `body` stands for what that function returns, not for the bytes the client sent. The function ends every line with "\n", so a raw body "x" is stored and echoed as "x\n", and CR or CRLF line ends become LF. The line-reading loop itself is not modelled.
- The App Engine Datastore backend (DatastoreDatabase.java): its client library is not part of this model. Its behaviour is the `IDatabase` contract, which `Store` models as a map. Its 1 MB content ceiling is not modelled.
- Servlet plumbing: error message texts, header names, the response writer and exceptions thrown by it. HTTP methods other than GET, PUT, DELETE and POST are also left out. HEAD, through `HttpServlet.doHead`, runs GET without sending the body; OPTIONS and TRACE are answered by `HttpServlet` itself.
- Store.Put: storing a resource whose content was never assigned is excluded by its precondition. The servlet always assigns content before storing (StorageInterfaceServlet.java:251-255), and what the backend would do with a null text is not modelled.
- Servlet.DoDelete: a store that fails to delete a resource it has just returned (a concurrent delete, or a backend fault) is not modelled, so the 500 branch is kept in the handler but proved unreachable.
- Servlet.Persist: likewise, a store that loses a write is not modelled, so the re-read-miss 500 branch is proved unreachable.
- Servlet.DoGet: the source writes the body (StorageInterfaceServlet.java:108) before it sets the ETag header (StorageInterfaceServlet.java:111). A body larger than the container's response buffer commits the response first, and the header is then dropped, so a client reading a large resource gets no tag to send in If-Match. The contract's ETag assumes the response is not committed before the header is set.
- Servlet.Persist: the source writes the body (StorageInterfaceServlet.java:271) before it sets 201 (StorageInterfaceServlet.java:279). A body larger than the container's response buffer commits the response with the default 200 first, so a large create can reach the client as 200. The model's "201 exactly for a create" assumes the response is not committed before the status is set.
- Strings.RemoveAll: its own contract bounds only the length of the result. What the result is follows from `Strings.RemoveAllAbsent`, `Strings.RemoveAllLeading` and `Strings.RemoveAllAround`, because restating the recursion in the contract would say nothing new.
- String representation: a Dafny `string` is a sequence of Unicode scalar values, while a Java `String` is a sequence of UTF-16 code units and can hold unpaired surrogates (which `getBytes("UTF-8")` turns into '?'). Nothing in the model depends on the difference: the prefix and the media type are ASCII, and the digest is a parameter.
- Concurrency: the race between the existence check and the put or delete is not modelled. Each request runs alone against one store value.
