/**
  The resource record (`IResource`, implemented by `SINode`): a URI fixed at
  construction and a content that can be assigned, plus the ETag observer.

  The record is a value: "assigning" content yields a new record. A Java
  `SINode` built with the one-argument constructor has no content yet (its
  field is `null`); that is `content == None` here.

  The ETag is lowercase hex of SHA-256 over the UTF-8 bytes of `uri + content`.
  UTF-8 encoding and SHA-256 are not modelled: the composite is a parameter
  `h` of type `Hasher` that returns 32 bytes.
*/
module Resource {
  import opened Wrappers
  import Hex

  /** A 32-byte SHA-256 digest. */
  type Digest = d: seq<Hex.byte> | |d| == 32 witness seq(32, _ => 0)

  /** SHA-256 of the UTF-8 bytes of a string. */
  type Hasher = string -> Digest

  datatype Resource = Resource(uri: string, content: Option<string>)

  /** `new SINode(uri)`: a node with the given URI and no content yet. */
  function NewNode(uri: string): (r: Resource)
    ensures r.uri == uri && r.content.None?
  {
    Resource(uri, None)
  }

  /** `setContent(c)`: the content is replaced, the URI stays. */
  function SetContent(r: Resource, c: string): (r': Resource)
    ensures r'.uri == r.uri
    ensures r'.content == Some(c)
  {
    r.(content := Some(c))
  }

  /** `new SINode(uri, content)`: the one-argument constructor followed by `setContent`. */
  function NewNodeWith(uri: string, content: string): (r: Resource)
    ensures r.uri == uri && r.content == Some(content)
  {
    SetContent(NewNode(uri), content)
  }

  /** Java string concatenation `uri + content`, where a null content prints as "null". */
  function TaggedText(r: Resource): (t: string)
    ensures r.uri <= t
    ensures r.content.Some? ==> t[|r.uri|..] == r.content.value
    ensures r.content.None? ==> t[|r.uri|..] == "null"
  {
    r.uri + match r.content case None => "null" case Some(c) => c
  }

  /** `getETag()`: hex of the digest of `uri + content`. */
  function ETag(h: Hasher, r: Resource): (e: string)
    ensures |e| == 64
    ensures Hex.IsLowerHex(e)
    ensures Hex.Decode(e) == Some(h(TaggedText(r)))
  {
    Hex.DecodeEncode(h(TaggedText(r)));
    Hex.Encode(h(TaggedText(r)))
  }

  /** The ETag is a function of the concatenated text alone. */
  lemma ETagOfText(h: Hasher, r1: Resource, r2: Resource)
    requires TaggedText(r1) == TaggedText(r2)
    ensures ETag(h, r1) == ETag(h, r2)
  {
  }

  /** Two tags agree exactly when the digests of the two texts agree. */
  lemma ETagEqualIffDigestEqual(h: Hasher, r1: Resource, r2: Resource)
    ensures ETag(h, r1) == ETag(h, r2) <==> h(TaggedText(r1)) == h(TaggedText(r2))
  {
    if ETag(h, r1) == ETag(h, r2) {
      Hex.EncodeInjective(h(TaggedText(r1)), h(TaggedText(r2)));
    }
  }

  /**
    When the digest separates these two texts (no digest can separate all
    texts: it maps every string to 32 bytes), the tags tell the texts apart;
    what they identify is the concatenation, not the (uri, content) pair.
  */
  lemma ETagIdentifiesText(h: Hasher, r1: Resource, r2: Resource)
    requires TaggedText(r1) != TaggedText(r2) ==> h(TaggedText(r1)) != h(TaggedText(r2))
    ensures ETag(h, r1) == ETag(h, r2) <==> TaggedText(r1) == TaggedText(r2)
  {
    ETagEqualIffDigestEqual(h, r1, r2);
  }

  /** ("ab", "c") and ("a", "bc") get the same tag under every digest. */
  lemma ETagSplitCollision(h: Hasher)
    ensures ETag(h, NewNodeWith("ab", "c")) == ETag(h, NewNodeWith("a", "bc"))
  {
    assert TaggedText(NewNodeWith("ab", "c")) == "abc" == TaggedText(NewNodeWith("a", "bc"));
  }

  /** A node with no content is tagged as if its content were the text "null". */
  lemma ETagOfUnsetContent(h: Hasher, uri: string)
    ensures ETag(h, NewNode(uri)) == ETag(h, NewNodeWith(uri, "null"))
  {
  }
}
