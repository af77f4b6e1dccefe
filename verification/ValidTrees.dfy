/** What validation of a body tree is good for (pkg/mailer/part.go:44-138): valid trees travel, up to collisions. */
module ValidTrees {
  import opened Bytes
  import opened LineEndings
  import opened MailTypes
  import opened PartPrinter
  import opened PartParser
  import opened TransferDecoding
  import opened TreeRoundTrip
  import opened TreeFidelity
  import opened Collisions
  import opened ProtoConversion
  import opened RequestRules

  /** The header blocks of a tree read back as they were written. */
  predicate HeadersTravel(env: Env, path: seq<nat>, p: Part, contentType: ContentType)
    requires Encodable(p, contentType)
    decreases p
  {
    p.Multipart? ==>
      && (var sent := SentMedia(env, path, contentType.media.value); env.codec.formatType(sent).media == Some(sent))
      && (forall i :: 0 <= i < |p.children| ==> HeaderOfChildSurvives(env, EncodeChild(env, path, p, contentType, i)))
      && forall i :: 0 <= i < |p.children| ==>
           HeadersTravel(env, path + [i], p.children[i].part, p.children[i].contentType)
  }

  /** The random source draws boundaries that may be written. */
  ghost predicate DrawsWell(env: Env) {
    forall path :: ValidBoundary(env.draw(path))
  }

  /** Leaves are not labelled as multiparts, and have types that fit their kinds. */
  predicate LeavesFit(p: Part, contentType: ContentType) {
    match p
    case Multipart(children) => forall i :: 0 <= i < |children| ==> LeavesFit(children[i].part, children[i].contentType)
    case _ => KindFits(p, contentType) && !HasPrefix(MediaOf(contentType).mediaType, "multipart/")
  }

  /** A tree that is valid below a type that is, too. */
  predicate ValidBelow(p: Part, contentType: ContentType) {
    && ValidPart(p, contentType)
    && (p.Multipart? ==> contentType.media.Some? && ValidMultipartType(contentType.media.value))
  }

  lemma BelowValid(p: Part, contentType: ContentType, i: nat)
    requires p.Multipart? && ValidPart(p, contentType) && i < |p.children|
    ensures ValidBelow(p.children[i].part, p.children[i].contentType)
  {
    assert ValidChild(p.children[i]);
  }

  /** A valid multipart goes out under its media type, and under its own boundary if it has one. */
  lemma ValidBoundaryTravels(env: Env, path: seq<nat>, media: Media)
    requires DrawsWell(env) && ValidMultipartType(media)
    requires env.codec.formatType(SentMedia(env, path, media)).media == Some(SentMedia(env, path, media))
    ensures BoundaryTravels(env, path, media)
    ensures media.boundary.Some? ==>
              SentMedia(env, path, media) == media && Boundary(env, path, media) == media.boundary.value
  {
    assert ValidBoundary(env.draw(path));
  }

  /** Valid trees are framed so that a reader finds every part, as far as their header blocks read back. */
  lemma {:induction false} ValidIsFramed(env: Env, path: seq<nat>, p: Part, contentType: ContentType)
    requires ValidBelow(p, contentType) && LeavesFit(p, contentType) && DrawsWell(env)
    requires Encodable(p, contentType) && HeadersTravel(env, path, p, contentType)
    ensures Framed(env, path, p, contentType)
    decreases p
  {
    if p.Multipart? {
      ValidBoundaryTravels(env, path, contentType.media.value);
      forall i | 0 <= i < |p.children|
        ensures Framed(env, path + [i], p.children[i].part, p.children[i].contentType)
      {
        BelowValid(p, contentType, i);
        ValidIsFramed(env, path + [i], p.children[i].part, p.children[i].contentType);
      }
    }
  }

  lemma {:induction false} ValidTypesMatch(p: Part, contentType: ContentType)
    requires ValidBelow(p, contentType) && LeavesFit(p, contentType)
    ensures TypesMatchKinds(p, contentType)
    decreases p
  {
    if p.Multipart? {
      forall i | 0 <= i < |p.children|
        ensures TypesMatchKinds(p.children[i].part, p.children[i].contentType)
      {
        BelowValid(p, contentType, i);
        ValidTypesMatch(p.children[i].part, p.children[i].contentType);
      }
    }
  }

  /**
   * A valid tree under fitting types is read back from its printed and rewritten form if and only if
   * no line of it looks like a boundary around it.
   */
  lemma ValidRoundTripIff(env: Env, path: seq<nat>, p: Part, contentType: ContentType)
    requires ValidBelow(p, contentType) && LeavesFit(p, contentType) && DrawsWell(env)
    requires Encodable(p, contentType) && HeadersTravel(env, path, p, contentType)
    ensures var e := EncodePart(env, path, p, contentType);
            ReadsBack(env, p, EntityHeader(e.contentType, e.cte), Lines(Canonical(e.content))) <==>
              !Collides(env, path, p, contentType)
  {
    ValidIsFramed(env, path, p, contentType);
    ValidTypesMatch(p, contentType);
    RoundTripIff(env, path, p, contentType);
  }

  // ----- header fields of parts

  /** At every depth the headers have visible values, and none names the content type. */
  predicate HeadersAreVisible(p: Part) {
    match p
    case Multipart(children) =>
      forall i :: 0 <= i < |children| ==>
        && (forall k :: 0 <= k < |children[i].headers| ==>
              Visible(children[i].headers[k].value) && ToLower(children[i].headers[k].key) != "content-type")
        && HeadersAreVisible(children[i].part)
    case _ => true
  }

  /** A valid tree comes back from protobuf, and its headers cannot break out of their lines. */
  lemma {:induction false} ValidHeadersAreGood(p: Part, contentType: ContentType)
    requires ValidPart(p, contentType)
    ensures GoodKeys(p) && HeadersAreVisible(p)
    decreases p
  {
    if p.Multipart? {
      forall i | 0 <= i < |p.children|
        ensures ChildKeysGood(p.children[i].headers) && GoodKeys(p.children[i].part)
        ensures HeadersAreVisible(p.children[i].part)
        ensures forall k :: 0 <= k < |p.children[i].headers| ==>
                  && Visible(p.children[i].headers[k].value)
                  && ToLower(p.children[i].headers[k].key) != "content-type"
      {
        var c := p.children[i];
        assert ValidChild(c);
        ValidHeadersAreGood(c.part, c.contentType);
        forall k | 0 <= k < |c.headers|
          ensures Visible(c.headers[k].value) && ToLower(c.headers[k].key) != "content-type"
        {
          assert ValidChildHeader(c.headers[k]);
          HeaderCharacters(c.headers[k].value);
        }
      }
    }
  }
}
