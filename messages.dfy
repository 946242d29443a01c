/** The message as the walker sees it: the flattened pre-order sequence of
    parts that `msg.walk()` yields, each reduced to the values the core reads. */
module Messages {
  import opened Results
  import opened Codecs

  /** `part.get_payload(decode=True)`: bytes, None (a multipart container),
      or some other object. */
  datatype Payload = NoPayload | Bytes(data: seq<byte>) | NotBytes

  /** `part.get_content_disposition()`, lower-cased by the email package
      (section 2 of RFC 2183). */
  datatype Disposition = NoDisposition | Inline | AttachmentDisposition | OtherDisposition(value: string)

  /** One MIME part. `charset` is `get_content_charset()`, `contentId` the
      raw `Content-ID` header, `filename` is `get_filename()`. */
  datatype Part = Part(
    disposition: Disposition,
    contentType: string,
    charset: Option<string>,
    contentId: Option<string>,
    filename: Option<string>,
    payload: Payload)

  /** The `Attachment` dataclass: escaped name, size and MD5 hex digest. */
  datatype Attachment = Attachment(name: string, size: int, md5sum: string)
}
