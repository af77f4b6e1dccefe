/** The messages of servis/sip/notifications/mail.proto that carry a mail; `Option` where Go has a pointer. */
module ProtoTypes {
  import opened Bytes
  import opened MailTypes

  datatype PbAddress =
    | PbAddressUnset
    | PbMailAddress(name: string, address: string)
    | PbVsethUserId(id: string)

  datatype PbContent =
    | PbContentUnset
    | PbContentText(content: bytes)
    | PbContentBytes(contentBytes: bytes)
    | PbNested(nested: Option<PbBody>)

  datatype PbPart = PbPart(contentType: Option<ContentType>, headers: seq<Option<Header>>, content: PbContent)

  datatype PbBody = PbBody(parts: seq<PbPart>)

  datatype PbAttachment = PbAttachment(contentType: Option<ContentType>, content: bytes)

  datatype PbBodyOneof =
    | PbBodyUnset
    | PbPlainText(plainText: bytes)
    | PbSimpleMail(plain: Option<bytes>, html: Option<bytes>, attachments: seq<Option<PbAttachment>>)
    | PbMultipartBody(multipart: Option<PbBody>)
    | PbRawBody(rawBody: bytes)

  datatype PbMail = PbMail(
    subject: string,
    from: Option<PbAddress>,
    to: seq<Option<PbAddress>>,
    cc: seq<Option<PbAddress>>,
    bcc: seq<Option<PbAddress>>,
    replyTo: seq<Option<PbAddress>>,
    extraHeaders: seq<Option<Header>>,
    contentType: Option<ContentType>,
    body: PbBodyOneof)
}
