/**
 * The `SimpleEmailServiceEnvelope` object: its fields, the methods that
 * change them, and the request parameters it builds, either a `SendEmail`
 * request or, when it carries attachments, a `SendRawEmail` request.
 */
module SesEnvelope {
  import opened Text
  import opened PhpArray
  import Base64
  import HeaderEncoding
  import ServiceErrors
  import opened Envelope
  import opened MimeMessage

  const SendEmailAction: Bytes := "SendEmail"
  const SendRawEmailAction: Bytes := "SendRawEmail"
  const RawDataKey: Bytes := "RawMessage.Data"
  const DefaultCharset: Bytes := "UTF-8"
  const DefaultMimeType: Bytes := "application/" + "octet-stream"

  /** The parameters `buildParameters` returns: the raw message alone when
      there are attachments, the `SendEmail` fields otherwise. */
  function Parameters(m: Contents, boundary: Bytes): Array {
    if m.attachments != [] then [Entry(RawDataKey, RawMessage(m, boundary))] else SendParameters(m)
  }

  /** Either request names every parameter once, as signing requires. */
  lemma ParametersUniqueKeys(m: Contents, boundary: Bytes)
    ensures UniqueKeys(Parameters(m, boundary))
  {
    if m.attachments == [] {
      SendParametersUniqueKeys(m);
    }
  }

  /** With attachments the request holds the raw message and nothing else:
      no destination, source or subject parameter is sent. */
  lemma RawRequest(m: Contents, boundary: Bytes, k: Bytes)
    requires m.attachments != []
    ensures Lookup(Parameters(m, boundary), RawDataKey) == Some(RawMessage(m, boundary))
    ensures k != RawDataKey ==> Lookup(Parameters(m, boundary), k) == None
    ensures Base64.Decode(Lookup(Parameters(m, boundary), RawDataKey).value) == Some(RawText(m, boundary))
  {
    var raw := RawMessage(m, boundary);
    assert Parameters(m, boundary) == [Entry(RawDataKey, raw)];
    RawMessageDecodes(m, boundary);
  }

  /** With attachments, the Bcc recipients reach the request nowhere: only
      whether there are any makes a difference. */
  lemma BccDroppedWithAttachments(m: Contents, bcc: seq<Bytes>, boundary: Bytes)
    requires m.attachments != [] && (m.bcc == []) == (bcc == [])
    ensures Parameters(m.(bcc := bcc), boundary) == Parameters(m, boundary)
  {
    BccNotWritten(m, bcc, boundary);
  }

  class SimpleEmailServiceEnvelope {
    var returnPath: Option<Bytes>
    var source: Bytes
    var subject: Bytes
    var body: Bytes
    var htmlBody: Bytes
    var charset: Bytes
    var to: seq<Bytes>
    var cc: seq<Bytes>
    var bcc: seq<Bytes>
    var replyTo: seq<Bytes>
    var attachments: seq<Attachment>
    var action: Bytes

    /** Everything the envelope holds, as one value. */
    function Snapshot(): Contents
      reads this
    {
      Contents(returnPath, source, subject, body, htmlBody, charset, to, cc, bcc, replyTo, attachments)
    }

    /** No return path is set (nothing in the class assigns one), the
        charset is UTF-8 and all lists start empty. */
    constructor(from: Bytes, subject: Bytes, message: Bytes, htmlMessage: Bytes := [])
      ensures Snapshot() == Contents(None, from, subject, message, htmlMessage, DefaultCharset, [], [], [], [], [])
      ensures action == SendEmailAction
    {
      returnPath := None;
      charset := DefaultCharset;
      to, cc, bcc, replyTo := [], [], [], [];
      attachments := [];
      action := SendEmailAction;
      source := from;
      this.subject := subject;
      body := message;
      htmlBody := htmlMessage;
    }

    /** `addTo`: one address is appended as it is, a list is merged in
        without duplicates. */
    method AddTo(arg: Recipients)
      modifies this`to
      ensures to == Added(old(to), arg)
    {
      match arg
      case One(address) => to := to + [address];
      case Many(addresses) => to := Unique(to + addresses);
    }

    method AddCc(arg: Recipients)
      modifies this`cc
      ensures cc == Added(old(cc), arg)
    {
      match arg
      case One(address) => cc := cc + [address];
      case Many(addresses) => cc := Unique(cc + addresses);
    }

    method AddBcc(arg: Recipients)
      modifies this`bcc
      ensures bcc == Added(old(bcc), arg)
    {
      match arg
      case One(address) => bcc := bcc + [address];
      case Many(addresses) => bcc := Unique(bcc + addresses);
    }

    method AddReplyTo(arg: Recipients)
      modifies this`replyTo
      ensures replyTo == Added(old(replyTo), arg)
    {
      match arg
      case One(address) => replyTo := replyTo + [address];
      case Many(addresses) => replyTo := Unique(replyTo + addresses);
    }

    method SetCharset(charset: Bytes)
      modifies this`charset
      ensures this.charset == charset
    {
      this.charset := charset;
    }

    /** `addAttachmentFromData`: the attachment is recorded after the earlier ones. */
    method AddAttachmentFromData(name: Bytes, data: Bytes, mimeType: Bytes := DefaultMimeType, contentId: Option<Bytes> := None)
      modifies this`attachments
      ensures attachments == old(attachments) + [Attachment(name, mimeType, data, contentId)]
    {
      attachments := attachments + [Attachment(name, mimeType, data, contentId)];
    }

    /** `validate`: the first check that fails names its error; the plain
        body is required even when an HTML body is present. */
    method Validate() returns (r: Validity)
      ensures r == Validation(Snapshot())
      ensures r == Valid <==> HasDestination(Snapshot()) && |source| != 0 && |subject| != 0 && |body| != 0
    {
      ServiceErrors.LocalCodes();
      if |to| == 0 && |cc| == 0 && |bcc| == 0 {
        return Invalid(ServiceErrors.NewServiceError("Destination"));
      }
      if |source| == 0 {
        return Invalid(ServiceErrors.NewServiceError("EmailSource"));
      }
      if |subject| == 0 {
        return Invalid(ServiceErrors.NewServiceError("EmailSubject"));
      }
      if |body| == 0 {
        return Invalid(ServiceErrors.NewServiceError("EmailBody"));
      }
      return Valid;
    }

    /** `buildParameters`. The boundary of a raw message, drawn at random
        by the envelope, is passed in. */
    method BuildParameters(boundary: Bytes) returns (params: Array)
      modifies this`action
      ensures params == Parameters(Snapshot(), boundary)
      ensures action == if attachments != [] then SendRawEmailAction else old(action)
    {
      if attachments != [] {
        action := SendRawEmailAction;
        var raw := BuildRaw(boundary);
        assert action == SendRawEmailAction;
        params := Put([], RawDataKey, raw);
        return;
      }
      params := RecipientFields();
      params := SendMessageFields(params);
      assert action == old(action);
    }

    /** The four recipient loops of `buildParameters`. The To and Cc loops
        number their members; the Bcc and Reply-To loops never advance
        their counter. */
    method RecipientFields() returns (params: Array)
      ensures params == RecipientParameters(Snapshot())
    {
      ghost var m := Snapshot();
      params := [];

      var i: nat := 1;
      for k := 0 to |to|
        invariant params == Members(ToPrefix, to[..k]) && i == k + 1
      {
        PutNextMember(ToPrefix, to, k, i);
        params := Put(params, MemberKey(ToPrefix, i), to[k]);
        i := i + 1;
      }
      assert to[..|to|] == to;

      ghost var front := params;
      MembersAvoid(ToPrefix, to, CcPrefix, 12);
      i := 1;
      for k := 0 to |cc|
        invariant params == front + Members(CcPrefix, cc[..k]) && i == k + 1
      {
        PutNextMemberAfter(front, CcPrefix, cc, k);
        params := Put(params, MemberKey(CcPrefix, i), cc[k]);
        i := i + 1;
      }
      assert cc[..|cc|] == cc;

      front := params;
      MembersAvoid(ToPrefix, to, BccPrefix, 12);
      MembersAvoid(CcPrefix, cc, BccPrefix, 12);
      KeysAvoidAppend(Members(ToPrefix, to), Members(CcPrefix, cc), BccPrefix);
      i := 1;
      for k := 0 to |bcc|
        invariant params == AssignedToFirst(front, BccPrefix, bcc[..k])
      {
        AssignedToFirstNext(front, BccPrefix, bcc, k);
        params := Put(params, MemberKey(BccPrefix, i), bcc[k]);
      }
      assert bcc[..|bcc|] == bcc;
      AssignedToFirstAppends(front, BccPrefix, bcc);

      front := params;
      DestinationKeys(m);
      i := 1;
      for k := 0 to |replyTo|
        invariant params == AssignedToFirst(front, ReplyToPrefix, replyTo[..k])
      {
        AssignedToFirstNext(front, ReplyToPrefix, replyTo, k);
        params := Put(params, MemberKey(ReplyToPrefix, i), replyTo[k]);
      }
      assert replyTo[..|replyTo|] == replyTo;
      AssignedToFirstAppends(front, ReplyToPrefix, replyTo);
    }


    /** The assignments of `buildParameters` after the recipient loops. */
    method SendMessageFields(recipients: Array) returns (params: Array)
      requires recipients == RecipientParameters(Snapshot())
      ensures params == SendParameters(Snapshot())
    {
      ghost var m := Snapshot();
      SendParametersUniqueKeys(m);
      ghost var s, p := [Entry(SourceKey, source)], ReturnPathParameters(m);
      ghost var j := ContentParameters(SubjectPrefix, subject, charset);
      ghost var t, h := BodyParameters(TextPrefix, body, charset), BodyParameters(HtmlPrefix, htmlBody, charset);
      assert SendParameters(m) == recipients + s + p + j + t + h;
      UniqueKeysPrefix(recipients + s + p + j + t, h);
      UniqueKeysPrefix(recipients + s + p + j, t);
      UniqueKeysPrefix(recipients + s + p, j);
      UniqueKeysPrefix(recipients + s, p);

      params := recipients;
      PutFresh(params, s[0]);
      params := Put(params, SourceKey, source);
      if TruthyOrNull(returnPath) {
        PutFresh(params, p[0]);
        params := Put(params, ReturnPathKey, returnPath.value);
      }
      assert params == recipients + s + p;
      PutPairFresh(params, j[0], j[1]);
      params := Put(params, SubjectPrefix + DataSuffix, subject);
      params := Put(params, SubjectPrefix + CharsetSuffix, charset);
      assert params == recipients + s + p + j;
      if |body| > 0 {
        PutPairFresh(params, t[0], t[1]);
        params := Put(params, TextPrefix + DataSuffix, body);
        params := Put(params, TextPrefix + CharsetSuffix, charset);
      }
      assert params == recipients + s + p + j + t;
      if |htmlBody| > 0 {
        PutPairFresh(params, h[0], h[1]);
        params := Put(params, HtmlPrefix + DataSuffix, htmlBody);
        params := Put(params, HtmlPrefix + CharsetSuffix, charset);
      }
      assert params == recipients + s + p + j + t + h;
    }

    /** The first part of `_buildRaw`: the header block and the
        multipart/alternative part holding the bodies. */
    method RawFront(boundary: Bytes) returns (raw: Bytes)
      ensures raw == Front(Snapshot(), boundary)
    {
      raw := RawAddresses();
      raw := RawMime(raw, boundary);
      raw := RawAlternatives(raw, boundary);
    }

    /** The address headers of `_buildRaw`; the Bcc line lists the Cc
        addresses. */
    method RawAddresses() returns (raw: Bytes)
      ensures raw == AddressLines(Snapshot())
    {
      raw := FromLabel + HeaderEncoding.EncodeValue(charset, source) + NL;
      ghost var before: Bytes := raw;
      if to != [] {
        raw := raw + (ToLabel + HeaderEncoding.EncodeList(charset, to) + NL);
      }
      assert raw == before + ListLine(ToLabel, to != [], charset, to);
      before := raw;
      if cc != [] {
        raw := raw + (CcLabel + HeaderEncoding.EncodeList(charset, cc) + NL);
      }
      assert raw == before + ListLine(CcLabel, cc != [], charset, cc);
      before := raw;
      if bcc != [] {
        raw := raw + (BccLabel + HeaderEncoding.EncodeList(charset, cc) + NL);
      }
      assert raw == before + ListLine(BccLabel, bcc != [], charset, cc);
      before := raw;
      if replyTo != [] {
        raw := raw + (ReplyToLabel + HeaderEncoding.EncodeList(charset, replyTo) + NL);
      }
      assert raw == before + ListLine(ReplyToLabel, replyTo != [], charset, replyTo);
    }

    /** The Subject line and the MIME headers of `_buildRaw`, appended to `head`. */
    method RawMime(head: Bytes, boundary: Bytes) returns (raw: Bytes)
      ensures raw == head + SubjectLine(Snapshot()) + MimeLines(boundary)
    {
      raw := head + (SubjectLabel + HeaderEncoding.EncodedWord(charset, subject) + NL);
      ghost var before := raw;
      raw := raw + MimeVersion;
      raw := raw + (MixedType + boundary + Quote + NL);
      raw := raw + (NL + Dashes + boundary + NL);
      raw := raw + (AlternativeType + boundary + Quote + NL);
      Grouped4(before, MimeVersion, MixedType + boundary + Quote + NL,
               NL + Dashes + boundary + NL, AlternativeType + boundary + Quote + NL);
    }

    /** The plain and HTML alternatives of `_buildRaw`, each only when its
        body is non-empty, and the closing boundary, appended to `head`. */
    method RawAlternatives(head: Bytes, boundary: Bytes) returns (raw: Bytes)
      ensures raw == head + Alternatives(Snapshot(), boundary)
    {
      raw := head;
      ghost var before: Bytes := raw;
      if |body| > 0 {
        raw := raw + (NL + Dashes + Alt + boundary + NL);
        raw := raw + (PlainType + charset + Quote + NL + NL);
        raw := raw + (body + NL);
        Grouped3(before, NL + Dashes + Alt + boundary + NL, PlainType + charset + Quote + NL + NL, body + NL);
      }
      assert raw == before + AlternativePart(boundary, PlainType, charset, body);
      before := raw;
      if |htmlBody| > 0 {
        raw := raw + (NL + Dashes + Alt + boundary + NL);
        raw := raw + (HtmlType + charset + Quote + NL + NL);
        raw := raw + (htmlBody + NL);
        Grouped3(before, NL + Dashes + Alt + boundary + NL, HtmlType + charset + Quote + NL + NL, htmlBody + NL);
      }
      assert raw == before + AlternativePart(boundary, HtmlType, charset, htmlBody);
      raw := raw + (NL + Dashes + Alt + boundary + Dashes + NL);
      Grouped3(head, AlternativePart(boundary, PlainType, charset, body),
               AlternativePart(boundary, HtmlType, charset, htmlBody), NL + Dashes + Alt + boundary + Dashes + NL);
    }

    /** `_buildRaw`, with the boundary passed in. */
    method BuildRaw(boundary: Bytes) returns (r: Bytes)
      ensures r == RawMessage(Snapshot(), boundary)
    {
      ghost var m := Snapshot();
      var raw := RawFront(boundary);
      ghost var front: Bytes := raw;
      ghost var before: Bytes;
      for k := 0 to |attachments|
        invariant raw == front + AttachmentParts(boundary, attachments[..k])
      {
        var attachment := attachments[k];
        before := raw;
        raw := raw + (NL + Dashes + boundary + NL);
        raw := raw + (ContentTypeLabel + attachment.mimeType + NameParameter + attachment.name + Quote + NL);
        ghost var withType: Bytes := raw;
        if TruthyOrNull(attachment.contentId) {
          raw := raw + (ContentIdLabel + attachment.contentId.value + NL);
        }
        assert raw == withType + ContentIdLine(attachment);
        raw := raw + TransferEncoding;
        raw := raw + (NL + Base64.ChunkSplit(Base64.Encode(attachment.data)) + NL);
        Grouped5(before, NL + Dashes + boundary + NL,
                 ContentTypeLabel + attachment.mimeType + NameParameter + attachment.name + Quote + NL,
                 ContentIdLine(attachment), TransferEncoding, NL + Payload(attachment) + NL);
        assert raw == before + AttachmentPart(boundary, attachment);
        NextAttachmentPart(boundary, attachments, k);
        Associative(front, AttachmentParts(boundary, attachments[..k]), AttachmentPart(boundary, attachment));
      }
      assert attachments[..|attachments|] == attachments;
      raw := raw + (NL + Dashes + boundary + Dashes + NL);
      assert raw == RawText(m, boundary);
      r := Base64.Encode(raw);
    }
  }
}
