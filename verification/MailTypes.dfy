/** The mail and its body tree: pkg/mailer/mail.go:36-52 and pkg/mailer/part.go:14-42. */
module MailTypes {
  import opened Bytes

  /** A parsed content type.  `charset` is empty when the parameter is absent. */
  datatype Media = Media(mediaType: string, charset: string, boundary: Option<bytes>)

  /** A content type as it is written and what `mime.ParseMediaType` makes of it, if anything. */
  datatype ContentType = ContentType(raw: string, media: Option<Media>)

  /** `mime.ParseMediaType` fails on the empty string. */
  predicate Parses(contentType: ContentType) {
    contentType.raw != "" && contentType.media.Some?
  }

  const NO_TYPE := ContentType("", None)

  const PLAIN_TEXT := ContentType("text/plain; charset=utf-8", Some(Media("text/plain", "utf-8", None)))

  const HTML_TEXT := ContentType("text/html; charset=utf-8", Some(Media("text/html", "utf-8", None)))

  const OCTETS := ContentType("application/octet-stream", Some(Media("application/octet-stream", "", None)))

  const MIXED := ContentType("multipart/mixed", Some(Media("multipart/mixed", "", None)))

  const ALTERNATIVE := ContentType("multipart/alternative", Some(Media("multipart/alternative", "", None)))

  datatype Header = Header(key: string, value: string)

  /** `Nil` is the nil interface value, which a body read back from the database may be. */
  datatype Part =
    | Nil
    | Text(text: bytes)
    | Binary(data: bytes)
    | Multipart(children: seq<Child>)

  datatype Child = Child(contentType: ContentType, headers: seq<Header>, part: Part)

  datatype Address = Address(name: string, address: string)

  datatype Mail = Mail(
    from: Address,
    replyTo: seq<Address>,
    to: seq<Address>,
    cc: seq<Address>,
    bcc: seq<Address>,
    subject: string,
    date: int,
    messageId: string,
    contentType: ContentType,
    headers: seq<Header>,
    body: Part)

  predicate HasPrefix(s: string, prefix: string) {
    prefix <= s
  }

  /** No part of the tree is the nil interface. */
  predicate Complete(p: Part) {
    match p
    case Nil => false
    case Multipart(children) => forall i :: 0 <= i < |children| ==> Complete(children[i].part)
    case _ => true
  }
}
