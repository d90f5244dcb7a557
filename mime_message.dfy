/**
 * `_buildRaw`: the multipart MIME document (RFC 2046) sent as the raw
 * message of a `SendRawEmail` request, and its base64 encoding. The
 * boundary, which the envelope draws at random, is a parameter here.
 */
module MimeMessage {
  import opened Text
  import Base64
  import HeaderEncoding
  import opened Envelope

  const NL: Bytes := "\n"
  const Dashes: Bytes := "--"
  const Quote: Bytes := "\""
  const Alt: Bytes := "alt-"

  const FromLabel: Bytes := "From: "
  const ToLabel: Bytes := "To: "
  const CcLabel: Bytes := "cc: "
  const BccLabel: Bytes := "Bcc: "
  const ReplyToLabel: Bytes := "Reply-To: "
  const SubjectLabel: Bytes := "Subject: "
  const MimeVersion: Bytes := "MIME-Version: 1.0\n"
  const ContentTypeLabel: Bytes := "Content-Type: "
  const BoundaryParameter: Bytes := "; boundary=\""
  const CharsetParameter: Bytes := "; charset=\""
  const NameParameter: Bytes := "; name=\""
  const MixedType: Bytes := ContentTypeLabel + "multipart/mixed" + BoundaryParameter
  const AlternativeType: Bytes := ContentTypeLabel + "multipart/alternative" + BoundaryParameter + Alt
  const PlainType: Bytes := ContentTypeLabel + "text/plain" + CharsetParameter
  const HtmlType: Bytes := ContentTypeLabel + "text/html" + CharsetParameter
  const ContentIdLabel: Bytes := "Content-ID"
  const TransferEncoding: Bytes := "Content-Transfer-" + "Encoding: base64\n"

  /* ------------------------------------------------------------------ */
  /* Header block                                                        */
  /* ------------------------------------------------------------------ */

  /** A header line for a recipient list, present only when the list that
      decides it is not empty. */
  function ListLine(field: Bytes, present: bool, charset: Bytes, values: seq<Bytes>): Bytes {
    if present then field + HeaderEncoding.EncodeList(charset, values) + NL else []
  }

  function FromLine(m: Contents): Bytes {
    FromLabel + HeaderEncoding.EncodeValue(m.charset, m.source) + NL
  }

  /** The address headers. The Bcc line is written when there are Bcc
      recipients, but it carries the Cc list. */
  function AddressLines(m: Contents): Bytes {
    FromLine(m)
    + ListLine(ToLabel, m.to != [], m.charset, m.to)
    + ListLine(CcLabel, m.cc != [], m.charset, m.cc)
    + ListLine(BccLabel, m.bcc != [], m.charset, m.cc)
    + ListLine(ReplyToLabel, m.replyTo != [], m.charset, m.replyTo)
  }

  /** The subject, always sent as one encoded-word. */
  function SubjectLine(m: Contents): Bytes {
    SubjectLabel + HeaderEncoding.EncodedWord(m.charset, m.subject) + NL
  }

  /** MIME version, the outer multipart/mixed type, the delimiter of its
      first part and that part's multipart/alternative type. */
  function MimeLines(boundary: Bytes): Bytes {
    MimeVersion
    + (MixedType + boundary + Quote + NL)
    + (NL + Dashes + boundary + NL)
    + (AlternativeType + boundary + Quote + NL)
  }

  /* ------------------------------------------------------------------ */
  /* Alternative bodies                                                  */
  /* ------------------------------------------------------------------ */

  /** One alternative body, written only when it is not empty. */
  function AlternativePart(boundary: Bytes, contentType: Bytes, charset: Bytes, body: Bytes): Bytes {
    if |body| > 0 then
      (NL + Dashes + Alt + boundary + NL)
      + (contentType + charset + Quote + NL + NL)
      + (body + NL)
    else []
  }

  function Alternatives(m: Contents, boundary: Bytes): Bytes {
    AlternativePart(boundary, PlainType, m.charset, m.body)
    + AlternativePart(boundary, HtmlType, m.charset, m.htmlBody)
    + (NL + Dashes + Alt + boundary + Dashes + NL)
  }

  /* ------------------------------------------------------------------ */
  /* Attachments                                                         */
  /* ------------------------------------------------------------------ */

  /** The Content-ID line: written only for a truthy content id, and with
      no colon between the field name and the id. */
  function ContentIdLine(a: Attachment): Bytes {
    if TruthyOrNull(a.contentId) then ContentIdLabel + a.contentId.value + NL else []
  }

  /** The base64 body of an attachment, wrapped at 76 symbols. */
  function Payload(a: Attachment): Bytes {
    Base64.ChunkSplit(Base64.Encode(a.data))
  }

  function AttachmentPart(boundary: Bytes, a: Attachment): Bytes {
    (NL + Dashes + boundary + NL)
    + (ContentTypeLabel + a.mimeType + NameParameter + a.name + Quote + NL)
    + ContentIdLine(a)
    + TransferEncoding
    + (NL + Payload(a) + NL)
  }

  /** The part of each attachment, in the order the attachments were added. */
  function Parts(boundary: Bytes, attachments: seq<Attachment>): seq<Bytes> {
    seq(|attachments|, i requires 0 <= i < |attachments| => AttachmentPart(boundary, attachments[i]))
  }

  function AttachmentParts(boundary: Bytes, attachments: seq<Attachment>): Bytes {
    Concat(Parts(boundary, attachments))
  }

  function Closing(boundary: Bytes): Bytes {
    NL + Dashes + boundary + Dashes + NL
  }

  /* ------------------------------------------------------------------ */
  /* The document                                                        */
  /* ------------------------------------------------------------------ */

  /** Everything in front of the attachment parts. */
  function Front(m: Contents, boundary: Bytes): Bytes {
    AddressLines(m) + SubjectLine(m) + MimeLines(boundary) + Alternatives(m, boundary)
  }

  /** The raw document `_buildRaw` assembles before encoding it. */
  function RawText(m: Contents, boundary: Bytes): Bytes {
    Front(m, boundary) + AttachmentParts(boundary, m.attachments) + Closing(boundary)
  }

  /** What `_buildRaw` returns: the document, base64-encoded on one line. */
  function RawMessage(m: Contents, boundary: Bytes): (r: Bytes)
    ensures '\n' !in r
  {
    Base64.Encode(RawText(m, boundary))
  }

  /** The raw message decodes back to the document exactly. */
  lemma RawMessageDecodes(m: Contents, boundary: Bytes)
    ensures Base64.Decode(RawMessage(m, boundary)) == Some(RawText(m, boundary))
  {
    Base64.DecodeEncode(RawText(m, boundary));
  }

  /** The document opens with the From header and ends with the closing
      delimiter of the outer multipart. */
  lemma RawTextBounds(m: Contents, boundary: Bytes)
    ensures FromLine(m) <= RawText(m, boundary)
    ensures var t, c := RawText(m, boundary), Closing(boundary); |c| <= |t| && t[|t| - |c|..] == c
  {
    var front, parts, c := Front(m, boundary), AttachmentParts(boundary, m.attachments), Closing(boundary);
    Ends(front + parts, c);
    var from, address := FromLine(m), AddressLines(m);
    var to := ListLine(ToLabel, m.to != [], m.charset, m.to);
    var cc := ListLine(CcLabel, m.cc != [], m.charset, m.cc);
    var bcc := ListLine(BccLabel, m.bcc != [], m.charset, m.cc);
    var replyTo := ListLine(ReplyToLabel, m.replyTo != [], m.charset, m.replyTo);
    Ends(from, to);
    PrefixExtended(from, from + to, cc);
    PrefixExtended(from, from + to + cc, bcc);
    PrefixExtended(from, from + to + cc + bcc, replyTo);
    assert front == address + SubjectLine(m) + MimeLines(boundary) + Alternatives(m, boundary);
    PrefixExtended(from, address, SubjectLine(m));
    PrefixExtended(from, address + SubjectLine(m), MimeLines(boundary));
    PrefixExtended(from, address + SubjectLine(m) + MimeLines(boundary), Alternatives(m, boundary));
    PrefixExtended(from, front, parts);
    PrefixExtended(from, front + parts, c);
  }

  /** Parts of attachments added one after the other follow each other. */
  lemma AttachmentPartsAppend(boundary: Bytes, first: seq<Attachment>, second: seq<Attachment>)
    ensures AttachmentParts(boundary, first + second) == AttachmentParts(boundary, first) + AttachmentParts(boundary, second)
  {
    assert Parts(boundary, first + second) == Parts(boundary, first) + Parts(boundary, second);
    ConcatAppend(Parts(boundary, first), Parts(boundary, second));
  }

  /** One more round of the attachment loop. */
  lemma NextAttachmentPart(boundary: Bytes, attachments: seq<Attachment>, k: nat)
    requires k < |attachments|
    ensures AttachmentParts(boundary, attachments[..k + 1])
         == AttachmentParts(boundary, attachments[..k]) + AttachmentPart(boundary, attachments[k])
  {
    assert attachments[..k + 1] == attachments[..k] + [attachments[k]];
    AttachmentPartsAppend(boundary, attachments[..k], [attachments[k]]);
    AttachmentPartsSingle(boundary, attachments[k]);
  }

  /** Adding an attachment keeps everything in front of the closing
      delimiter as it was and inserts the new part just before it. */
  lemma AttachmentAdded(m: Contents, boundary: Bytes, a: Attachment, kept: Bytes)
    requires RawText(m, boundary) == kept + Closing(boundary)
    ensures RawText(m.(attachments := m.attachments + [a]), boundary) == kept + AttachmentPart(boundary, a) + Closing(boundary)
  {
    var m' := m.(attachments := m.attachments + [a]);
    var front, parts, c := Front(m, boundary), AttachmentParts(boundary, m.attachments), Closing(boundary);
    Ends(front + parts, c);
    Ends(kept, c);
    AttachmentPartsAppend(boundary, m.attachments, [a]);
    AttachmentPartsSingle(boundary, a);
    FrontIgnoresAttachments(m, m'.attachments, boundary);
    Associative(front, parts, AttachmentPart(boundary, a));
  }

  lemma FrontIgnoresAttachments(m: Contents, attachments: seq<Attachment>, boundary: Bytes)
    ensures Front(m.(attachments := attachments), boundary) == Front(m, boundary)
  {
    var m' := m.(attachments := attachments);
    assert AddressLines(m') == AddressLines(m);
    assert SubjectLine(m') == SubjectLine(m);
    assert Alternatives(m', boundary) == Alternatives(m, boundary);
  }

  lemma AttachmentPartsSingle(boundary: Bytes, a: Attachment)
    ensures AttachmentParts(boundary, [a]) == AttachmentPart(boundary, a)
  {
    var part := AttachmentPart(boundary, a);
    assert Parts(boundary, [a]) == [part];
    ConcatSingle(part);
  }

  /** Bcc addresses never reach the document: two envelopes that differ
      only in their Bcc lists, both empty or both not, give the same text. */
  lemma BccNotWritten(m: Contents, bcc: seq<Bytes>, boundary: Bytes)
    requires (m.bcc == []) == (bcc == [])
    ensures RawText(m.(bcc := bcc), boundary) == RawText(m, boundary)
  {
    var m' := m.(bcc := bcc);
    assert AddressLines(m') == AddressLines(m);
    assert Front(m', boundary) == Front(m, boundary);
  }

  /** The Content-ID line has no colon of its own: when the id has none,
      the line has none either, so it does not form a header field. */
  lemma ContentIdWithoutColon(a: Attachment)
    requires TruthyOrNull(a.contentId) && ':' !in a.contentId.value
    ensures ContentIdLabel <= ContentIdLine(a)
    ensures ':' !in ContentIdLine(a)
  {
    var id := a.contentId.value;
    var line := ContentIdLine(a);
    assert forall i :: 0 <= i < |ContentIdLabel| ==> ContentIdLabel[i] != ':';
    NoByteInConcat(ContentIdLabel, id, ':');
    NoByteInConcat(ContentIdLabel + id, NL, ':');
  }

  /** An empty or "0" content id, like a missing one, gives no line. */
  lemma ContentIdOmitted(a: Attachment)
    requires a.contentId.None? || a.contentId.value == [] || a.contentId.value == "0"
    ensures ContentIdLine(a) == []
  {
  }

  /** An attachment part ends with its payload and a line break; the
      payload is lines of at most 76 symbols that decode back to the data. */
  lemma AttachmentDataRecoverable(boundary: Bytes, a: Attachment)
    ensures var p, q := AttachmentPart(boundary, a), Payload(a);
      |q| + 1 <= |p| && p[|p| - |q| - 1..|p| - 1] == q
    ensures Base64.WrappedLines(Payload(a), Base64.LineLength)
    ensures Base64.Decode(Base64.Unwrap(Payload(a))) == Some(a.data)
  {
    var p, q := AttachmentPart(boundary, a), Payload(a);
    var head := (NL + Dashes + boundary + NL)
      + (ContentTypeLabel + a.mimeType + NameParameter + a.name + Quote + NL)
      + ContentIdLine(a) + TransferEncoding;
    Associative(head, NL + q, NL);
    Associative(head, NL, q);
    Middle(head + NL, q, NL);
    Base64.WrappedEncodingRoundTrip(a.data);
  }
}
