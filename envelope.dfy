/**
 * The envelope of one message (`SimpleEmailServiceEnvelope`): the recipient
 * lists its add-methods grow, the checks `validate` makes, the request
 * parameters `buildParameters` produces when the message carries no
 * attachments. The raw document sent otherwise is in `MimeMessage`.
 */
module Envelope {
  import opened Text
  import opened PhpArray
  import Base64
  import HeaderEncoding
  import ServiceErrors

  /* ------------------------------------------------------------------ */
  /* Recipient lists                                                     */
  /* ------------------------------------------------------------------ */

  predicate Distinct(s: seq<Bytes>) {
    forall i, j :: 0 <= i < j < |s| ==> s[i] != s[j]
  }

  /** `array_unique`: the first occurrence of every value, in list order. */
  function Unique(s: seq<Bytes>): seq<Bytes>
    decreases |s|
  {
    if s == [] then []
    else
      var init := Unique(s[..|s| - 1]);
      if s[|s| - 1] in init then init else init + [s[|s| - 1]]
  }

  /** `array_unique` leaves no value twice and drops no value. */
  lemma {:induction false} UniqueDistinct(s: seq<Bytes>)
    ensures Distinct(Unique(s))
    ensures forall x :: x in Unique(s) <==> x in s
    decreases |s|
  {
    if s != [] {
      var init, last := s[..|s| - 1], s[|s| - 1];
      UniqueDistinct(init);
      assert s == init + [last];
    }
  }

  /** A list without repeats is its own `array_unique`. */
  lemma {:induction false} UniqueOfDistinct(s: seq<Bytes>)
    requires Distinct(s)
    ensures Unique(s) == s
    decreases |s|
  {
    if s != [] {
      var init, last := s[..|s| - 1], s[|s| - 1];
      assert Distinct(init);
      UniqueOfDistinct(init);
      assert last !in init by {
        assert forall i :: 0 <= i < |init| ==> init[i] == s[i];
      }
      assert s == init + [last];
    }
  }

  /** `array_unique` of a list starts with `array_unique` of its front part:
      values are never moved ahead of earlier ones. */
  lemma {:induction false} UniquePrefix(a: seq<Bytes>, b: seq<Bytes>)
    ensures Unique(a) <= Unique(a + b)
    decreases |b|
  {
    if b == [] {
      assert a + b == a;
    } else {
      var init := b[..|b| - 1];
      assert (a + b)[..|a + b| - 1] == a + init;
      UniquePrefix(a, init);
    }
  }

  /** The argument of an add-method: one address string, or an array of them. */
  datatype Recipients = One(address: Bytes) | Many(addresses: seq<Bytes>)

  /** A recipient list after an add-method: a single string is appended as
      it is, an array is merged behind the list and the whole passed through
      `array_unique`. */
  function Added(list: seq<Bytes>, arg: Recipients): seq<Bytes> {
    match arg
    case One(address) => list + [address]
    case Many(addresses) => Unique(list + addresses)
  }

  /** Adding a single string that the list already holds puts it in twice. */
  lemma AddOneRepeats(list: seq<Bytes>, address: Bytes)
    requires address in list
    ensures !Distinct(Added(list, One(address)))
    ensures Added(list, One(address))[..|list|] == list
  {
    var i :| 0 <= i < |list| && list[i] == address;
    var r := Added(list, One(address));
    assert r[i] == r[|list|];
  }

  /** Adding an array leaves every address once, drops none, and keeps a
      list without repeats in front, as it was. */
  lemma AddManyMerges(list: seq<Bytes>, addresses: seq<Bytes>)
    ensures Distinct(Added(list, Many(addresses)))
    ensures forall x :: x in Added(list, Many(addresses)) <==> x in list || x in addresses
    ensures Distinct(list) ==> list <= Added(list, Many(addresses))
  {
    UniqueDistinct(list + addresses);
    UniquePrefix(list, addresses);
    if Distinct(list) {
      UniqueOfDistinct(list);
    }
  }

  /* ------------------------------------------------------------------ */
  /* Contents                                                            */
  /* ------------------------------------------------------------------ */

  /** One attachment as `addAttachmentFromData` records it. */
  datatype Attachment = Attachment(name: Bytes, mimeType: Bytes, data: Bytes, contentId: Option<Bytes>)

  /** Everything `validate`, `buildParameters` and `_buildRaw` read. */
  datatype Contents = Contents(
    returnPath: Option<Bytes>,
    source: Bytes,
    subject: Bytes,
    body: Bytes,
    htmlBody: Bytes,
    charset: Bytes,
    to: seq<Bytes>,
    cc: seq<Bytes>,
    bcc: seq<Bytes>,
    replyTo: seq<Bytes>,
    attachments: seq<Attachment>)

  /* ------------------------------------------------------------------ */
  /* validate                                                            */
  /* ------------------------------------------------------------------ */

  /** `validate` returns either `true` or the error of the first failed check. */
  datatype Validity = Valid | Invalid(error: ServiceErrors.ServiceError)

  /** Some To, Cc or Bcc recipient; Reply-To addresses do not count. */
  predicate HasDestination(m: Contents) {
    |m.to| != 0 || |m.cc| != 0 || |m.bcc| != 0
  }

  function Validation(m: Contents): (r: Validity)
    ensures r == Valid <==> HasDestination(m) && |m.source| != 0 && |m.subject| != 0 && |m.body| != 0
    ensures r.Invalid? ==> r.error.description.Some?
  {
    ServiceErrors.LocalCodes();
    if !HasDestination(m) then Invalid(ServiceErrors.NewServiceError("Destination"))
    else if |m.source| == 0 then Invalid(ServiceErrors.NewServiceError("EmailSource"))
    else if |m.subject| == 0 then Invalid(ServiceErrors.NewServiceError("EmailSubject"))
    else if |m.body| == 0 then Invalid(ServiceErrors.NewServiceError("EmailBody"))
    else Valid
  }

  /** A message with recipients, sender and subject but only an HTML body
      is refused for want of a body. */
  lemma HtmlOnlyRefused(m: Contents)
    requires HasDestination(m) && |m.source| != 0 && |m.subject| != 0
    requires |m.body| == 0 && |m.htmlBody| != 0
    ensures Validation(m).Invalid?
    ensures Validation(m).error.description == Some(ServiceErrors.EmailBodyRequired)
  {
    ServiceErrors.LocalCodes();
  }

  /** Without To, Cc and Bcc recipients the destination is reported missing,
      whatever the Reply-To list holds and whatever else is missing too. */
  lemma ReplyToIsNoDestination(m: Contents)
    requires |m.to| == 0 && |m.cc| == 0 && |m.bcc| == 0
    ensures Validation(m).Invalid?
    ensures Validation(m).error.code == "Destination"
    ensures Validation(m).error.description == Some(ServiceErrors.DestinationRequired)
  {
    ServiceErrors.LocalCodes();
  }

  /** The sender is checked before the subject, and the subject before the body. */
  lemma CheckOrder(m: Contents)
    requires HasDestination(m)
    ensures |m.source| == 0 ==> Validation(m).error.description == Some(ServiceErrors.EmailSourceRequired)
    ensures |m.source| != 0 && |m.subject| == 0 ==> Validation(m).error.description == Some(ServiceErrors.EmailSubjectRequired)
    ensures |m.source| != 0 && |m.subject| != 0 && |m.body| == 0 ==> Validation(m).error.description == Some(ServiceErrors.EmailBodyRequired)
  {
    ServiceErrors.LocalCodes();
  }

  /* ------------------------------------------------------------------ */
  /* buildParameters without attachments                                 */
  /* ------------------------------------------------------------------ */

  const Destination: Bytes := "Destination."
  const ToPrefix: Bytes := Destination + "ToAddresses.member."
  const CcPrefix: Bytes := Destination + "CcAddresses.member."
  const BccPrefix: Bytes := Destination + "BccAddresses.member."
  const ReplyToPrefix: Bytes := "ReplyToAddresses.member."
  const SourceKey: Bytes := "Source"
  const ReturnPathKey: Bytes := "ReturnPath"
  const SubjectPrefix: Bytes := "Message.Subject."
  const TextPrefix: Bytes := "Message.Body.Text."
  const HtmlPrefix: Bytes := "Message.Body.Html."
  const DataSuffix: Bytes := "Data"
  const CharsetSuffix: Bytes := "Charset"

  /** The letters at which the message keys part ways. */
  lemma KeyLetters()
    ensures |SourceKey| == 6 && SourceKey[0] == 'S'
    ensures |ReturnPathKey| == 10 && ReturnPathKey[0] == 'R' && ReturnPathKey[2] == 't'
    ensures |SubjectPrefix| == 16 && SubjectPrefix[0] == 'M' && SubjectPrefix[8] == 'S'
    ensures |TextPrefix| == 18 && TextPrefix[0] == 'M' && TextPrefix[8] == 'B' && TextPrefix[13] == 'T'
    ensures |HtmlPrefix| == 18 && HtmlPrefix[0] == 'M' && HtmlPrefix[8] == 'B' && HtmlPrefix[13] == 'H'
    ensures |Destination| == 12 && Destination[0] == 'D'
    ensures |ReplyToPrefix| == 24 && ReplyToPrefix[0] == 'R' && ReplyToPrefix[2] == 'p'
  {
  }

  /** The To and Cc loops number their members from 1; the Bcc loop never
      advances its counter, so only member 1 is left, holding the last address. */
  function DestinationParameters(m: Contents): Array {
    Members(ToPrefix, m.to) + Members(CcPrefix, m.cc) + LastAtFirstMember(BccPrefix, m.bcc)
  }

  /** The Reply-To loop, like the Bcc loop, leaves only member 1. */
  function RecipientParameters(m: Contents): Array {
    DestinationParameters(m) + LastAtFirstMember(ReplyToPrefix, m.replyTo)
  }

  /** The return path is sent only when it is set to a truthy string. */
  function ReturnPathParameters(m: Contents): Array {
    if TruthyOrNull(m.returnPath) then [Entry(ReturnPathKey, m.returnPath.value)] else []
  }

  /** The text of a subject or body part and its charset. */
  function ContentParameters(prefix: Bytes, data: Bytes, charset: Bytes): Array {
    [Entry(prefix + DataSuffix, data), Entry(prefix + CharsetSuffix, charset)]
  }

  /** A body part is sent only when it is not empty. */
  function BodyParameters(prefix: Bytes, body: Bytes, charset: Bytes): Array {
    if |body| > 0 then ContentParameters(prefix, body, charset) else []
  }

  function MessageParameters(m: Contents): Array {
    [Entry(SourceKey, m.source)] + ReturnPathParameters(m)
    + ContentParameters(SubjectPrefix, m.subject, m.charset)
    + BodyParameters(TextPrefix, m.body, m.charset)
    + BodyParameters(HtmlPrefix, m.htmlBody, m.charset)
  }

  /** The parameters of a `SendEmail` request, in the order they are assigned. */
  function SendParameters(m: Contents): Array {
    RecipientParameters(m) + MessageParameters(m)
  }

  /** The recipient entries: keys distinct, all under "Destination." except
      the Reply-To member. */
  lemma DestinationKeys(m: Contents)
    ensures UniqueKeys(DestinationParameters(m))
    ensures KeysStart(DestinationParameters(m), Destination)
    ensures KeysAvoid(DestinationParameters(m), ReplyToPrefix)
  {
    var t, c, b := Members(ToPrefix, m.to), Members(CcPrefix, m.cc), LastAtFirstMember(BccPrefix, m.bcc);
    MembersLookup(ToPrefix, m.to, 0);
    MembersLookup(CcPrefix, m.cc, 0);
    MembersStart(ToPrefix, m.to, ToPrefix);
    MembersAvoid(CcPrefix, m.cc, ToPrefix, 12);
    ApartByPrefix(t, c, ToPrefix);
    UniqueKeysAppend(t, c);
    MembersAvoid(ToPrefix, m.to, BccPrefix, 12);
    MembersAvoid(CcPrefix, m.cc, BccPrefix, 12);
    KeysAvoidAppend(t, c, BccPrefix);
    LastAtFirstMemberKeys(BccPrefix, m.bcc, ReplyToPrefix, 0);
    ApartByPrefix(b, t + c, BccPrefix);
    UniqueKeysAppend(t + c, b);
    MembersStart(ToPrefix, m.to, Destination);
    MembersStart(CcPrefix, m.cc, Destination);
    assert KeysStart(b, Destination) by {
      if m.bcc != [] {
        assert Destination <= BccPrefix;
      }
    }
    KeysStartAppend(t, c, Destination);
    KeysStartAppend(t + c, b, Destination);
    MembersAvoid(ToPrefix, m.to, ReplyToPrefix, 0);
    MembersAvoid(CcPrefix, m.cc, ReplyToPrefix, 0);
    KeysAvoidAppend(t, c, ReplyToPrefix);
    KeysAvoidAppend(t + c, b, ReplyToPrefix);
  }

  lemma ContentKeys(prefix: Bytes, data: Bytes, charset: Bytes)
    ensures UniqueKeys(ContentParameters(prefix, data, charset))
    ensures KeysStart(ContentParameters(prefix, data, charset), prefix)
  {
    assert (prefix + DataSuffix)[|prefix|] != (prefix + CharsetSuffix)[|prefix|];
  }

  lemma BodyKeys(prefix: Bytes, body: Bytes, charset: Bytes)
    ensures UniqueKeys(BodyParameters(prefix, body, charset))
    ensures KeysStart(BodyParameters(prefix, body, charset), prefix)
  {
    ContentKeys(prefix, body, charset);
  }

  /** The message entries: keys distinct, none under "Destination." or the
      Reply-To prefix. */
  lemma MessageKeys(m: Contents)
    ensures UniqueKeys(MessageParameters(m))
    ensures KeysAvoid(MessageParameters(m), Destination)
    ensures KeysAvoid(MessageParameters(m), ReplyToPrefix)
  {
    KeyLetters();
    var s, r := [Entry(SourceKey, m.source)], ReturnPathParameters(m);
    var j := ContentParameters(SubjectPrefix, m.subject, m.charset);
    var t, h := BodyParameters(TextPrefix, m.body, m.charset), BodyParameters(HtmlPrefix, m.htmlBody, m.charset);
    assert KeysStart(s, SourceKey) && KeysStart(r, ReturnPathKey);
    ContentKeys(SubjectPrefix, m.subject, m.charset);
    BodyKeys(TextPrefix, m.body, m.charset);
    BodyKeys(HtmlPrefix, m.htmlBody, m.charset);
    // Source and ReturnPath
    AvoidAt(r, ReturnPathKey, SourceKey, 0);
    ApartByPrefix(s, r, SourceKey);
    UniqueKeysAppend(s, r);
    // the subject
    AvoidAt(s, SourceKey, SubjectPrefix, 0);
    AvoidAt(r, ReturnPathKey, SubjectPrefix, 0);
    KeysAvoidAppend(s, r, SubjectPrefix);
    ApartByPrefix(j, s + r, SubjectPrefix);
    UniqueKeysAppend(s + r, j);
    // the text body
    AvoidAt(s, SourceKey, TextPrefix, 0);
    AvoidAt(r, ReturnPathKey, TextPrefix, 0);
    AvoidAt(j, SubjectPrefix, TextPrefix, 8);
    KeysAvoidAppend(s, r, TextPrefix);
    KeysAvoidAppend(s + r, j, TextPrefix);
    ApartByPrefix(t, s + r + j, TextPrefix);
    UniqueKeysAppend(s + r + j, t);
    // the HTML body
    AvoidAt(s, SourceKey, HtmlPrefix, 0);
    AvoidAt(r, ReturnPathKey, HtmlPrefix, 0);
    AvoidAt(j, SubjectPrefix, HtmlPrefix, 8);
    AvoidAt(t, TextPrefix, HtmlPrefix, 13);
    KeysAvoidAppend(s, r, HtmlPrefix);
    KeysAvoidAppend(s + r, j, HtmlPrefix);
    KeysAvoidAppend(s + r + j, t, HtmlPrefix);
    ApartByPrefix(h, s + r + j + t, HtmlPrefix);
    UniqueKeysAppend(s + r + j + t, h);
    // no recipient prefix
    AvoidAt(s, SourceKey, Destination, 0);
    AvoidAt(r, ReturnPathKey, Destination, 0);
    AvoidAt(j, SubjectPrefix, Destination, 0);
    AvoidAt(t, TextPrefix, Destination, 0);
    AvoidAt(h, HtmlPrefix, Destination, 0);
    KeysAvoidAppend(s, r, Destination);
    KeysAvoidAppend(s + r, j, Destination);
    KeysAvoidAppend(s + r + j, t, Destination);
    KeysAvoidAppend(s + r + j + t, h, Destination);
    AvoidAt(s, SourceKey, ReplyToPrefix, 0);
    AvoidAt(r, ReturnPathKey, ReplyToPrefix, 2);
    AvoidAt(j, SubjectPrefix, ReplyToPrefix, 0);
    AvoidAt(t, TextPrefix, ReplyToPrefix, 0);
    AvoidAt(h, HtmlPrefix, ReplyToPrefix, 0);
    KeysAvoidAppend(s, r, ReplyToPrefix);
    KeysAvoidAppend(s + r, j, ReplyToPrefix);
    KeysAvoidAppend(s + r + j, t, ReplyToPrefix);
    KeysAvoidAppend(s + r + j + t, h, ReplyToPrefix);
  }

  /** The parameters of a `SendEmail` request have distinct keys, as
      signing requires. */
  lemma SendParametersUniqueKeys(m: Contents)
    ensures UniqueKeys(SendParameters(m))
  {
    var d, r := DestinationParameters(m), LastAtFirstMember(ReplyToPrefix, m.replyTo);
    DestinationKeys(m);
    LastAtFirstMemberKeys(ReplyToPrefix, m.replyTo, Destination, 0);
    ApartByPrefix(r, d, ReplyToPrefix);
    UniqueKeysAppend(d, r);
    MessageKeys(m);
    ApartByPrefix(d, MessageParameters(m), Destination);
    ApartByPrefix(r, MessageParameters(m), ReplyToPrefix);
    KeysApartAppend(d, r, MessageParameters(m));
    UniqueKeysAppend(d + r, MessageParameters(m));
  }

  /** To and Cc addresses are numbered from 1 in list order; no other
      number is sent. */
  lemma NumberedMembers(m: Contents, n: nat)
    ensures Lookup(SendParameters(m), MemberKey(ToPrefix, n)) == if 1 <= n <= |m.to| then Some(m.to[n - 1]) else None
    ensures Lookup(SendParameters(m), MemberKey(CcPrefix, n)) == if 1 <= n <= |m.cc| then Some(m.cc[n - 1]) else None
  {
    var t, c, b := Members(ToPrefix, m.to), Members(CcPrefix, m.cc), LastAtFirstMember(BccPrefix, m.bcc);
    var r, msg := LastAtFirstMember(ReplyToPrefix, m.replyTo), MessageParameters(m);
    MessageKeys(m);
    var kt, kc := MemberKey(ToPrefix, n), MemberKey(CcPrefix, n);
    assert Destination <= kt && Destination <= kc;
    LookupBeforeAvoiding(t + c + b + r, msg, Destination, kt);
    LookupBeforeAvoiding(t + c + b + r, msg, Destination, kc);
    LastAtFirstMemberKeys(ReplyToPrefix, m.replyTo, ToPrefix, 0);
    LastAtFirstMemberKeys(ReplyToPrefix, m.replyTo, CcPrefix, 0);
    LookupBeforeAvoiding(t + c + b, r, ToPrefix, kt);
    LookupBeforeAvoiding(t + c + b, r, CcPrefix, kc);
    LastAtFirstMemberKeys(BccPrefix, m.bcc, ToPrefix, 12);
    LastAtFirstMemberKeys(BccPrefix, m.bcc, CcPrefix, 12);
    LookupBeforeAvoiding(t + c, b, ToPrefix, kt);
    LookupBeforeAvoiding(t + c, b, CcPrefix, kc);
    MembersAvoid(CcPrefix, m.cc, ToPrefix, 12);
    MembersAvoid(ToPrefix, m.to, CcPrefix, 12);
    LookupBeforeAvoiding(t, c, ToPrefix, kt);
    LookupPastAvoiding(t, c, CcPrefix, kc);
    MembersLookup(ToPrefix, m.to, n);
    MembersLookup(CcPrefix, m.cc, n);
  }

  /** The Bcc and Reply-To lists each send one member only: member 1, holding
      the last address of the list. */
  lemma FirstMemberOnly(m: Contents, n: nat)
    ensures Lookup(SendParameters(m), MemberKey(BccPrefix, n)) ==
      if n == 1 && m.bcc != [] then Some(m.bcc[|m.bcc| - 1]) else None
    ensures Lookup(SendParameters(m), MemberKey(ReplyToPrefix, n)) ==
      if n == 1 && m.replyTo != [] then Some(m.replyTo[|m.replyTo| - 1]) else None
  {
    var t, c, b := Members(ToPrefix, m.to), Members(CcPrefix, m.cc), LastAtFirstMember(BccPrefix, m.bcc);
    var r, msg := LastAtFirstMember(ReplyToPrefix, m.replyTo), MessageParameters(m);
    MessageKeys(m);
    DestinationKeys(m);
    var kb, kr := MemberKey(BccPrefix, n), MemberKey(ReplyToPrefix, n);
    assert Destination <= kb && ReplyToPrefix <= kr;
    LookupBeforeAvoiding(t + c + b + r, msg, Destination, kb);
    LookupBeforeAvoiding(t + c + b + r, msg, ReplyToPrefix, kr);
    LastAtFirstMemberKeys(ReplyToPrefix, m.replyTo, BccPrefix, 0);
    LookupBeforeAvoiding(t + c + b, r, BccPrefix, kb);
    LookupPastAvoiding(t + c + b, r, ReplyToPrefix, kr);
    MembersAvoid(ToPrefix, m.to, BccPrefix, 12);
    MembersAvoid(CcPrefix, m.cc, BccPrefix, 12);
    KeysAvoidAppend(t, c, BccPrefix);
    LookupPastAvoiding(t + c, b, BccPrefix, kb);
    MemberKeyInjective(BccPrefix, 1, n);
    MemberKeyInjective(ReplyToPrefix, 1, n);
  }

  lemma ContentLookup(prefix: Bytes, data: Bytes, charset: Bytes)
    ensures Lookup(ContentParameters(prefix, data, charset), prefix + DataSuffix) == Some(data)
    ensures Lookup(ContentParameters(prefix, data, charset), prefix + CharsetSuffix) == Some(charset)
  {
    ContentKeys(prefix, data, charset);
    LookupUnique(ContentParameters(prefix, data, charset), 0);
    LookupUnique(ContentParameters(prefix, data, charset), 1);
  }

  /** A key under neither recipient prefix is read from the message entries. */
  lemma PastRecipients(m: Contents, k: Bytes)
    requires !(Destination <= k) && !(ReplyToPrefix <= k)
    ensures Lookup(SendParameters(m), k) == Lookup(MessageParameters(m), k)
  {
    var d, r := DestinationParameters(m), LastAtFirstMember(ReplyToPrefix, m.replyTo);
    DestinationKeys(m);
    LastAtFirstMemberKeys(ReplyToPrefix, m.replyTo, Destination, 0);
    LookupAppend(d + r, MessageParameters(m), k);
    HasKeyAppend(d, r, k);
    assert !HasKey(d, k) by {
      forall i | 0 <= i < |d| ensures d[i].key != k {
        assert Destination <= d[i].key;
      }
    }
    assert !HasKey(r, k) by {
      forall i | 0 <= i < |r| ensures r[i].key != k {
        assert ReplyToPrefix <= r[i].key;
      }
    }
  }

  /** The sender is always sent. */
  lemma SourceEntry(m: Contents)
    ensures Lookup(SendParameters(m), SourceKey) == Some(m.source)
  {
    KeyLetters();
    var s, p := [Entry(SourceKey, m.source)], ReturnPathParameters(m);
    var j := ContentParameters(SubjectPrefix, m.subject, m.charset);
    var t, h := BodyParameters(TextPrefix, m.body, m.charset), BodyParameters(HtmlPrefix, m.htmlBody, m.charset);
    BodyKeys(TextPrefix, m.body, m.charset);
    BodyKeys(HtmlPrefix, m.htmlBody, m.charset);
    ContentKeys(SubjectPrefix, m.subject, m.charset);
    assert KeysStart(p, ReturnPathKey);
    PastRecipients(m, SourceKey);
    LookupBeforeStarting(s + p + j + t, h, HtmlPrefix, SourceKey);
    LookupBeforeStarting(s + p + j, t, TextPrefix, SourceKey);
    LookupBeforeStarting(s + p, j, SubjectPrefix, SourceKey);
    LookupBeforeStarting(s, p, ReturnPathKey, SourceKey);
  }

  /** The return path is sent only when it is truthy. */
  lemma ReturnPathEntry(m: Contents)
    ensures Lookup(SendParameters(m), ReturnPathKey) ==
      if TruthyOrNull(m.returnPath) then Some(m.returnPath.value) else None
  {
    KeyLetters();
    var s, p := [Entry(SourceKey, m.source)], ReturnPathParameters(m);
    var j := ContentParameters(SubjectPrefix, m.subject, m.charset);
    var t, h := BodyParameters(TextPrefix, m.body, m.charset), BodyParameters(HtmlPrefix, m.htmlBody, m.charset);
    BodyKeys(TextPrefix, m.body, m.charset);
    BodyKeys(HtmlPrefix, m.htmlBody, m.charset);
    ContentKeys(SubjectPrefix, m.subject, m.charset);
    assert KeysStart(s, SourceKey);
    assert SourceKey[0] != ReturnPathKey[0];
    PastRecipients(m, ReturnPathKey);
    LookupBeforeStarting(s + p + j + t, h, HtmlPrefix, ReturnPathKey);
    LookupBeforeStarting(s + p + j, t, TextPrefix, ReturnPathKey);
    LookupBeforeStarting(s + p, j, SubjectPrefix, ReturnPathKey);
    LookupPastStarting(s, p, SourceKey, ReturnPathKey);
  }

  /** The subject is always sent, with the envelope's charset. */
  lemma SubjectEntries(m: Contents)
    ensures Lookup(SendParameters(m), SubjectPrefix + DataSuffix) == Some(m.subject)
    ensures Lookup(SendParameters(m), SubjectPrefix + CharsetSuffix) == Some(m.charset)
  {
    KeyLetters();
    var s, p := [Entry(SourceKey, m.source)], ReturnPathParameters(m);
    var j := ContentParameters(SubjectPrefix, m.subject, m.charset);
    var t, h := BodyParameters(TextPrefix, m.body, m.charset), BodyParameters(HtmlPrefix, m.htmlBody, m.charset);
    BodyKeys(TextPrefix, m.body, m.charset);
    BodyKeys(HtmlPrefix, m.htmlBody, m.charset);
    assert KeysStart(s, SourceKey) && KeysStart(p, ReturnPathKey);
    var kd, kc := SubjectPrefix + DataSuffix, SubjectPrefix + CharsetSuffix;
    assert kd[8] != HtmlPrefix[8] && kc[8] != HtmlPrefix[8];
    assert kd[8] != TextPrefix[8] && kc[8] != TextPrefix[8];
    assert kd[0] != Destination[0] && kc[0] != Destination[0];
    assert kd[0] != ReplyToPrefix[0] && kc[0] != ReplyToPrefix[0];
    PastRecipients(m, kd);
    PastRecipients(m, kc);
    LookupBeforeStarting(s + p + j + t, h, HtmlPrefix, kd);
    LookupBeforeStarting(s + p + j + t, h, HtmlPrefix, kc);
    LookupBeforeStarting(s + p + j, t, TextPrefix, kd);
    LookupBeforeStarting(s + p + j, t, TextPrefix, kc);
    AvoidAt(s, SourceKey, SubjectPrefix, 0);
    AvoidAt(p, ReturnPathKey, SubjectPrefix, 0);
    KeysAvoidAppend(s, p, SubjectPrefix);
    LookupPastAvoiding(s + p, j, SubjectPrefix, kd);
    LookupPastAvoiding(s + p, j, SubjectPrefix, kc);
    ContentLookup(SubjectPrefix, m.subject, m.charset);
  }

  lemma BodyLookup(prefix: Bytes, body: Bytes, charset: Bytes)
    ensures Lookup(BodyParameters(prefix, body, charset), prefix + DataSuffix) == if |body| > 0 then Some(body) else None
    ensures Lookup(BodyParameters(prefix, body, charset), prefix + CharsetSuffix) == if |body| > 0 then Some(charset) else None
  {
    if |body| > 0 {
      ContentLookup(prefix, body, charset);
    }
  }

  /** The plain-text body and its charset are sent exactly when the body is not empty. */
  lemma TextBodyEntries(m: Contents)
    ensures Lookup(SendParameters(m), TextPrefix + DataSuffix) == if |m.body| > 0 then Some(m.body) else None
    ensures Lookup(SendParameters(m), TextPrefix + CharsetSuffix) == if |m.body| > 0 then Some(m.charset) else None
  {
    KeyLetters();
    var s, p := [Entry(SourceKey, m.source)], ReturnPathParameters(m);
    var j := ContentParameters(SubjectPrefix, m.subject, m.charset);
    var t, h := BodyParameters(TextPrefix, m.body, m.charset), BodyParameters(HtmlPrefix, m.htmlBody, m.charset);
    BodyKeys(HtmlPrefix, m.htmlBody, m.charset);
    ContentKeys(SubjectPrefix, m.subject, m.charset);
    assert KeysStart(s, SourceKey) && KeysStart(p, ReturnPathKey);
    var kd, kc := TextPrefix + DataSuffix, TextPrefix + CharsetSuffix;
    assert TextPrefix <= kd && TextPrefix <= kc;
    assert kd[13] != HtmlPrefix[13] && kc[13] != HtmlPrefix[13];
    assert kd[0] != Destination[0] && kc[0] != Destination[0];
    assert kd[0] != ReplyToPrefix[0] && kc[0] != ReplyToPrefix[0];
    PastRecipients(m, kd);
    PastRecipients(m, kc);
    LookupBeforeStarting(s + p + j + t, h, HtmlPrefix, kd);
    LookupBeforeStarting(s + p + j + t, h, HtmlPrefix, kc);
    AvoidAt(s, SourceKey, TextPrefix, 0);
    AvoidAt(p, ReturnPathKey, TextPrefix, 0);
    AvoidAt(j, SubjectPrefix, TextPrefix, 8);
    KeysAvoidAppend(s, p, TextPrefix);
    KeysAvoidAppend(s + p, j, TextPrefix);
    LookupPastAvoiding(s + p + j, t, TextPrefix, kd);
    LookupPastAvoiding(s + p + j, t, TextPrefix, kc);
    BodyLookup(TextPrefix, m.body, m.charset);
  }

  /** The HTML body and its charset are sent exactly when it is not empty. */
  lemma HtmlBodyEntries(m: Contents)
    ensures Lookup(SendParameters(m), HtmlPrefix + DataSuffix) == if |m.htmlBody| > 0 then Some(m.htmlBody) else None
    ensures Lookup(SendParameters(m), HtmlPrefix + CharsetSuffix) == if |m.htmlBody| > 0 then Some(m.charset) else None
  {
    KeyLetters();
    var s, p := [Entry(SourceKey, m.source)], ReturnPathParameters(m);
    var j := ContentParameters(SubjectPrefix, m.subject, m.charset);
    var t, h := BodyParameters(TextPrefix, m.body, m.charset), BodyParameters(HtmlPrefix, m.htmlBody, m.charset);
    BodyKeys(TextPrefix, m.body, m.charset);
    ContentKeys(SubjectPrefix, m.subject, m.charset);
    assert KeysStart(s, SourceKey) && KeysStart(p, ReturnPathKey);
    var kd, kc := HtmlPrefix + DataSuffix, HtmlPrefix + CharsetSuffix;
    assert HtmlPrefix <= kd && HtmlPrefix <= kc;
    assert kd[0] != Destination[0] && kc[0] != Destination[0];
    assert kd[0] != ReplyToPrefix[0] && kc[0] != ReplyToPrefix[0];
    PastRecipients(m, kd);
    PastRecipients(m, kc);
    AvoidAt(s, SourceKey, HtmlPrefix, 0);
    AvoidAt(p, ReturnPathKey, HtmlPrefix, 0);
    AvoidAt(j, SubjectPrefix, HtmlPrefix, 8);
    AvoidAt(t, TextPrefix, HtmlPrefix, 13);
    KeysAvoidAppend(s, p, HtmlPrefix);
    KeysAvoidAppend(s + p, j, HtmlPrefix);
    KeysAvoidAppend(s + p + j, t, HtmlPrefix);
    LookupPastAvoiding(s + p + j + t, h, HtmlPrefix, kd);
    LookupPastAvoiding(s + p + j + t, h, HtmlPrefix, kc);
    BodyLookup(HtmlPrefix, m.htmlBody, m.charset);
  }
}
