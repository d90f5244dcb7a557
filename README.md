# php-ses in Dafny

A model of the core of php-ses, a small PHP client for Amazon Simple Email
Service (SES), with proofs about what it sends. Three parts of the library
are covered:

- **`SimpleEmailService`**, the request signer. It covers:
  - the host and endpoint that the constructor derives from the region;
  - the AWS Signature Version 4 recipe of `_generateSignature` and
    `_generateSignatureKey`: the sorted query string, the canonical request,
    the credential scope, the string to sign, the HMAC key chain and the
    Authorization header;
  - the parameter checks and numbering that `listIdentities` and
    `getIdentityVerificationAttributes` perform before signing.

  SHA-256 and HMAC-SHA256 are passed in as functions (`Signer.Crypto`). The
  model therefore states exactly which bytes reach them, and in which order.
- **`SimpleEmailServiceEnvelope`**, the message builder. It covers:
  - its add-methods;
  - `validate`;
  - `buildParameters`, with its `SendEmail` form and its `SendRawEmail` form;
  - the multipart MIME document that `_buildRaw` assembles;
  - `_encodeHeader`, which writes display names as RFC 2047 encoded-words.
- **`SimpleEmailServiceError`**: how an error code maps to a description.

Layout, one module per file:

| file | module | what it holds |
|---|---|---|
| `text.dfy` | `Text` | Byte strings, PHP truthiness, binary comparison, `join`/`explode`, decimal and hex text |
| `php_array.dfy` | `PhpArray` | PHP ordered arrays with string keys: `$a[$k] = $v`, reads, numbered member keys, `ksort` |
| `url_query.dfy` | `UrlQuery` | `rawurlencode` and `http_build_query(..., PHP_QUERY_RFC3986)`, plus a parser that proves them lossless |
| `base64.dfy` | `Base64` | `base64_encode` (section 4 of RFC 4648) with its decoder, and `chunk_split` |
| `header_encoding.dfy` | `HeaderEncoding` | `_encodeHeader` with its `(.*)<(.*)>` match |
| `service_errors.dfy` | `ServiceErrors` | The `SimpleEmailServiceError` constructor |
| `signer.dfy` | `Signer` | The signing recipe and the `SimpleEmailService` class |
| `envelope.dfy` | `Envelope` | Recipient lists, the envelope contents, `validate` and the `SendEmail` parameters, all as values |
| `mime_message.dfy` | `MimeMessage` | The raw document of `_buildRaw`, as a value |
| `envelope_object.dfy` | `SesEnvelope` | The `SimpleEmailServiceEnvelope` class, whose methods change its fields step by step |

The class methods are proved against the value-level functions:
- `BuildParameters` returns `Parameters(Snapshot(), boundary)`.
- `BuildRaw` returns `RawMessage(Snapshot(), boundary)`.
- `Validate` returns `Validation(Snapshot())`.

The properties are then proved as lemmas about those functions.

The library's own quirks are modelled as written, and lemmas state their
effect:
- The `Bcc:` header of the raw message lists the Cc addresses
  (`MimeMessage.AddressLines`, `MimeMessage.BccNotWritten`).
- The Bcc and Reply-To loops of `buildParameters` never advance their
  counter. Only member 1 is sent, and it holds the last address
  (`Envelope.FirstMemberOnly`).
- The attachment header is written `Content-ID` followed directly by the id,
  with no colon (`MimeMessage.ContentIdWithoutColon`).
- `validate` requires the plain-text body even when an HTML body is present
  (`Envelope.HtmlOnlyRefused`).
- Adding a single address does not remove duplicates
  (`Envelope.AddOneRepeats`).
- Nothing in the envelope class ever assigns the return path. It is always
  null, so `ReturnPath` is never sent. The model keeps the field so that the
  parameter logic is stated in full (`Envelope.ReturnPathEntry`).
- The `SignatureDoesNotMatch` code gets the incomplete-signature text
  (`ServiceErrors.SignatureMismatch`).

In `listIdentities` and in the domain check, the patterns are anchored with
`$` and have no `D` modifier. PHP's `$` therefore also matches just before a
final line break, so for example `"Domain\n"` is accepted. The model follows
that (`Signer.IdentityTypesAccepted`).

## Model

| member | source | states |
|---|---|---|
| Signer.SimpleEmailService.constructor | src/ses.php:45-52 | The host is "email." + region + ".amazonaws.com" and the endpoint is "https://" followed by the host; the keys and region are stored; the region defaults to us-east-1 |
| Signer.Host | src/ses.php:51 | The host name: "email.", the region and ".amazonaws.com"; `HostNamesRegion` proves that it determines the region |
| Signer.Endpoint | src/ses.php:52 | The endpoint URL; `EndpointIsHost` proves that it is "https://" followed by the host |
| Signer.EndpointIsHost | src/ses.php:51-52 | The endpoint is the host behind "https://", for every region |
| Signer.HostNamesRegion | src/ses.php:51 | The host is 20 bytes longer than the region and carries it at bytes 6 onward, so it determines the region |
| Signer.SignedParameters | src/ses.php:341-342 | The signed parameters are sorted by key, Action reads the current action (overriding a caller's Action), and every other key reads what the caller gave |
| Signer.CanonicalQuery | src/ses.php:341-344 | The query string is one line, and parsing it gives back exactly the signed parameters: Action set, then sorted |
| Signer.CanonicalQueryDetermines | src/ses.php:341-344 | Two canonical queries are equal if and only if they have the same action and every other key reads the same |
| Signer.CanonicalQueryInjective | src/ses.php:341-344 | Equal canonical queries come from the same action and parameters |
| Signer.CanonicalQueryOrderFree | src/ses.php:341-344 | The order in which the caller assigned the parameters does not change the canonical query |
| Signer.MemberTenBeforeTwo | src/ses.php:342 | Keys sort as bytes, so member 10 comes before member 2 |
| Signer.CanonicalRequest | src/ses.php:339-351 | The canonical request, as its eight lines joined by line breaks; `CanonicalRequestSplits` and `CanonicalRequestDetermines` prove what it carries |
| Signer.CanonicalRequestSplits | src/ses.php:339-351 | The canonical request splits at line breaks into exactly its eight lines: the method, "/", the query, "host:" + host, "x-amz-date:" + date, the empty line, "host;x-amz-date" and the payload hash |
| Signer.CanonicalRequestInjective | src/ses.php:346-351 | Equal canonical requests have equal method, query, host and date |
| Signer.CanonicalRequestDetermines | src/ses.php:341-351 | The canonical request determines the method, host, date, action and every caller parameter |
| Signer.HashHex | src/ses.php:348 | `hash('sha256', ...)` is lower-case hex text from which the digest is read back, with no line break |
| Signer.HmacHex | src/ses.php:359 | `hash_hmac` without raw output is hex text, twice the MAC's length, from which the MAC is read back |
| Signer.CredentialScope | src/ses.php:354 | The date, region, "email" and "aws4_request" joined by "/"; `CredentialScopeSplits` proves that they are read back |
| Signer.StringToSign | src/ses.php:355 | The algorithm, date, scope and request hash joined by line breaks; `StringToSignSplits` and `StringToSignCarriesDigest` prove what it carries |
| Signer.CredentialScopeSplits | src/ses.php:354 | The credential scope splits at "/" into the date, the region, "email" and "aws4_request" |
| Signer.StringToSignSplits | src/ses.php:355 | The string to sign splits into the algorithm, the date, the scope and the request hash |
| Signer.StringToSignCarriesDigest | src/ses.php:355 | The last line of the string to sign decodes to the SHA-256 of the canonical request |
| Signer.SigningKey | src/ses.php:306-314 | The four nested HMACs of `_generateSignatureKey`; `SigningKeyFollowsScope` proves that they follow the credential scope |
| Signer.SigningKeyFollowsScope | src/ses.php:306-314 | The signing key is the HMAC chain keyed first by "AWS4" + secret, over the scope's date, region, service and "aws4_request" in order |
| Signer.Authorization | src/ses.php:351-360 | The Authorization value of a request, built from the canonical request, scope, string to sign and signing key; `AuthorizationCarriesSignature` proves what it carries |
| Signer.AuthorizationHeaderParts | src/ses.php:360 | The header is the algorithm, Credential=key/scope and SignedHeaders=host;x-amz-date, then the signature |
| Signer.AuthorizationCarriesSignature | src/ses.php:351-360 | The Authorization header ends in the hex HMAC of the string to sign under the signing key, which is read back from it; the text before it is fixed by key and scope |
| Signer.SimpleEmailService.RefreshDate | src/ses.php:321-325 | The two clock readings, passed in, are stored |
| Signer.SimpleEmailService.GenerateSignature | src/ses.php:336-363 | The headers are exactly the Authorization header and x-amz-date, and the stored query string is the one that was signed |
| Signer.IdentityTypesAccepted | src/ses.php:72 | Exactly six identity types pass: "", "EmailAddress", "Domain", and each of these followed by a line break |
| Signer.ListIdentitiesParametersSent | src/ses.php:77-80 | An accepted type is sent as IdentityType unless it is empty; the empty type sends no parameter |
| Signer.SimpleEmailService.ListIdentities | src/ses.php:66-82 | Sets action, method and dates; signs if and only if the type is accepted, otherwise throws the IdentityType message and leaves the signed state unchanged |
| Signer.DomainFromLabels | src/ses.php:181 | Labels of lower-case letters, digits and inner hyphens, followed by a top-level part of two or more letters and joined by dots, form a domain name |
| Signer.SingleLabelIsNoDomain | src/ses.php:181 | A name without a dot never matches the domain pattern |
| Signer.IdentityParameters | src/ses.php:176-188 | The numbered identity parameters have distinct keys |
| Signer.IdentityParametersNumbered | src/ses.php:178-187 | The identities are accepted if and only if each is an e-mail address or a domain; member n then holds the n-th identity, and no other number is sent |
| Signer.OneRejectedIdentityRefuses | src/ses.php:180-184 | One rejected identity anywhere refuses the whole call |
| Signer.NumberIdentities | src/ses.php:178-188 | The numbering loop returns exactly `IdentityParameters` |
| Signer.SimpleEmailService.GetIdentityVerificationAttributes | src/ses.php:170-190 | Sets action, method and dates; signs the numbered identities if and only if all are accepted, otherwise throws the Identity message with the signed state unchanged |
| PhpArray.Lookup | src/ses.php:341 | A key reads a value exactly when the array holds it |
| PhpArray.Put | src/ses-envelope.php:208 | After `$a[$k] = $v` the key reads v; a new key is appended at the end |
| PhpArray.PutOther | src/ses-envelope.php:208 | Assignment leaves every other key's value as it was |
| PhpArray.PutUniqueKeys | src/ses-envelope.php:208 | Assignment keeps the keys distinct |
| PhpArray.PutTwice | src/ses-envelope.php:220 | A second assignment to the same key overwrites the first in place |
| PhpArray.MembersLookup | src/ses-envelope.php:206-210 | Numbered member keys are distinct; member n holds the n-th value; no other number is a key |
| PhpArray.MemberKeyInjective | src/ses-envelope.php:208 | Two member numbers give the same key if and only if they are equal |
| PhpArray.PutNextMember | src/ses-envelope.php:206-210 | Assigning member i+1 after numbering i values numbers i+1 values |
| PhpArray.AssignedToFirstAppends | src/ses-envelope.php:218-221 | A loop that assigns every value to member 1 adds one entry holding the last value |
| PhpArray.KSort | src/ses.php:342 | `ksort` returns the same entries, as a multiset, sorted by key when the keys are distinct |
| PhpArray.InsertSorted | src/ses.php:342 | Inserting an entry with a new key keeps an array sorted |
| PhpArray.LookupKSort | src/ses.php:342 | Sorting keeps what every key reads |
| PhpArray.SortedLookupEqual | src/ses.php:342 | Two key-sorted arrays in which every key reads the same are equal |
| Text.BelowTotal | src/ses.php:342 | The byte order used by `ksort` is total |
| Text.BelowTransitive | src/ses.php:342 | The byte order is transitive |
| Text.BelowCommonPrefix | src/ses.php:342 | A common prefix does not change how two keys compare |
| Text.Decimal | src/ses-envelope.php:208 | Decimal text is digits without a leading zero |
| Text.DecimalValue | src/ses-envelope.php:208 | Decimal text denotes its number |
| Text.DecimalInjective | src/ses-envelope.php:208 | Distinct numbers have distinct decimal text |
| Text.UnHexLowerHex | src/ses.php:348 | Hex text is twice as long as the bytes it encodes and decodes back to them |
| Text.SplitJoin | src/ses.php:351 | Splitting undoes joining when no part contains the separator |
| UrlQuery.BuildQuery | src/ses.php:344 | The `key=value` pairs joined by "&"; `ParseBuildQuery` proves that the array is read back from it |
| UrlQuery.PercentEncode | src/ses.php:344 | The encoding holds only unreserved characters and "%" |
| UrlQuery.PercentDecodeEncode | src/ses.php:344 | Percent-encoding is lossless |
| UrlQuery.SpaceEncoding | src/ses.php:344 | A space is sent as "%20" |
| UrlQuery.UnreservedUnchanged | src/ses.php:344 | Unreserved text is sent unchanged |
| UrlQuery.PairHasNoAmpersand | src/ses.php:344 | An encoded pair never contains the "&" separator |
| UrlQuery.ParseBuildQuery | src/ses.php:344 | The query string of a non-empty array is read back into exactly that array |
| UrlQuery.QueryHasNoLineBreak | src/ses.php:344 | The query string holds no line break |
| Base64.Encode | src/ses-envelope.php:304 | The encoding of n bytes has 4 * ceil(n / 3) symbols and no line break |
| Base64.DecodeEncode | src/ses-envelope.php:304 | Decoding recovers exactly the encoded bytes |
| Base64.ChunkSplit | src/ses-envelope.php:299 | `chunk_split` with 76 and "\n"; `ChunkSplitLines` proves its line structure and that unwrapping undoes it |
| Base64.ChunkSplitLines | src/ses-envelope.php:299 | `chunk_split` gives lines of at most 76 bytes, each ended by a line break, and removing the breaks gives back the input |
| Base64.WrappedEncodingRoundTrip | src/ses-envelope.php:299 | An attachment body is lines of at most 76 symbols that decode back to the data |
| HeaderEncoding.EncodeValue | src/ses-envelope.php:319-323 | `_encodeHeader` on one string; `NamedAddress`, `TailDropped` and `NoMatchUnchanged` prove its three cases |
| HeaderEncoding.EncodeList | src/ses-envelope.php:316-317 | `_encodeHeader` on an array; `EncodeListSingle`, `EncodeListCons` and `PlainListJoined` prove how it joins |
| HeaderEncoding.AngleSpan | src/ses-envelope.php:320 | Finds the last "<" that some ">" follows and the last ">" on a line, or reports that no "<" comes before a ">" |
| HeaderEncoding.NamedAddress | src/ses-envelope.php:320-321 | "display <address>" becomes the encoded-word of the display text, trailing space included, then " <address>"; the display text decodes back |
| HeaderEncoding.TailDropped | src/ses-envelope.php:320-321 | Text after the ">" is dropped, and so are later lines |
| HeaderEncoding.NoMatchUnchanged | src/ses-envelope.php:320-323 | A value with no "<" before a ">" is returned unchanged |
| HeaderEncoding.EncodeListCons | src/ses-envelope.php:316-317 | A list is encoded element by element, joined with ", " |
| HeaderEncoding.EncodeListSingle | src/ses-envelope.php:316-317 | A one-element list encodes as its element |
| HeaderEncoding.PlainListJoined | src/ses-envelope.php:316-323 | A list of bare addresses is joined with ", " and otherwise unchanged |
| ServiceErrors.Describe | src/ses-error.php:91-164 | The switch from code to description, with no default; `NewServiceError`, `LocalCodes`, `SignatureMismatch` and `DescribedByOwnCode` state its cases |
| ServiceErrors.NewServiceError | src/ses-error.php:88-165 | The code is kept as given; a description is set if and only if the switch lists the code |
| ServiceErrors.LocalCodes | src/ses-error.php:152-163 | Destination, EmailSource, EmailSubject and EmailBody get their own texts |
| ServiceErrors.SignatureMismatch | src/ses-error.php:98-100 | SignatureDoesNotMatch gets the incomplete-signature text; a code named IncompleteSignature gets none |
| ServiceErrors.DescribedByOwnCode | src/ses-error.php:92-163 | Every description except the incomplete-signature one is assigned to the code its constant is named after |
| Envelope.Unique | src/ses-envelope.php:60 | `array_unique` on a list; `UniqueDistinct`, `UniqueOfDistinct` and `UniquePrefix` prove what it keeps |
| Envelope.Added | src/ses-envelope.php:55-62 | A recipient list after an add-method; `AddOneRepeats` and `AddManyMerges` prove its two cases |
| Envelope.UniqueDistinct | src/ses-envelope.php:60 | `array_unique` leaves each value once and drops none |
| Envelope.UniquePrefix | src/ses-envelope.php:60 | `array_unique` keeps the order of first occurrence |
| Envelope.AddOneRepeats | src/ses-envelope.php:57-58 | Adding one address the list already holds puts it in twice |
| Envelope.AddManyMerges | src/ses-envelope.php:59-60 | Adding an array leaves each address once, loses none, and keeps a duplicate-free list in front |
| Envelope.Validation | src/ses-envelope.php:167-188 | Valid if and only if there is a To, Cc or Bcc recipient and the sender, subject and plain body are non-empty; every error has a description |
| Envelope.HtmlOnlyRefused | src/ses-envelope.php:184-186 | An envelope with only an HTML body is refused with the EmailBody error |
| Envelope.ReplyToIsNoDestination | src/ses-envelope.php:169-174 | Without To, Cc and Bcc the Destination error is reported, whatever the Reply-To list holds |
| Envelope.CheckOrder | src/ses-envelope.php:176-186 | With a destination, an empty sender is reported first, then an empty subject, then an empty plain body, whatever the HTML body holds |
| Envelope.SendParameters | src/ses-envelope.php:206-247 | The SendEmail parameters in assignment order; the lemmas from `SendParametersUniqueKeys` to `HtmlBodyEntries` prove what each key reads |
| Envelope.SendParametersUniqueKeys | src/ses-envelope.php:206-245 | The SendEmail parameters have distinct keys |
| Envelope.NumberedMembers | src/ses-envelope.php:206-216 | To and Cc addresses are members 1..n in list order; no other number is sent |
| Envelope.FirstMemberOnly | src/ses-envelope.php:218-226 | Bcc and Reply-To send member 1 only, holding the last address |
| Envelope.SourceEntry | src/ses-envelope.php:228 | Source is always sent |
| Envelope.ReturnPathEntry | src/ses-envelope.php:230-232 | ReturnPath is sent only when it is truthy |
| Envelope.SubjectEntries | src/ses-envelope.php:234-235 | The subject and the envelope charset are always sent |
| Envelope.TextBodyEntries | src/ses-envelope.php:237-240 | The text body and charset are sent if and only if the body is non-empty |
| Envelope.HtmlBodyEntries | src/ses-envelope.php:242-245 | The HTML body and charset are sent if and only if it is non-empty |
| MimeMessage.Front | src/ses-envelope.php:258-290 | The header block and the alternative bodies; `FrontIgnoresAttachments` proves that attachments do not change it |
| MimeMessage.AttachmentPart | src/ses-envelope.php:293-299 | The part of one attachment; `AttachmentDataRecoverable`, `ContentIdWithoutColon` and `ContentIdOmitted` prove what it holds |
| MimeMessage.RawText | src/ses-envelope.php:258-302 | The whole document before encoding; `RawTextBounds`, `AttachmentAdded` and `BccNotWritten` prove its layout |
| MimeMessage.RawMessage | src/ses-envelope.php:304 | The raw message is one line of base64 |
| MimeMessage.RawMessageDecodes | src/ses-envelope.php:304 | The raw message decodes to the document exactly |
| MimeMessage.RawTextBounds | src/ses-envelope.php:258-302 | The document starts with the From line and ends with the closing delimiter |
| MimeMessage.AttachmentPartsAppend | src/ses-envelope.php:292-300 | The parts of attachments added one after another follow each other |
| MimeMessage.AttachmentAdded | src/ses-envelope.php:292-302 | Adding an attachment keeps everything before the closing delimiter and inserts its part just before that delimiter |
| MimeMessage.BccNotWritten | src/ses-envelope.php:265-267 | Bcc addresses never reach the document; only whether there are any matters |
| MimeMessage.ContentIdWithoutColon | src/ses-envelope.php:295-297 | The Content-ID line has no colon, so it is no header field |
| MimeMessage.ContentIdOmitted | src/ses-envelope.php:295 | A missing, empty or "0" content id writes no line |
| MimeMessage.AttachmentDataRecoverable | src/ses-envelope.php:293-299 | An attachment part ends with its payload and a line break; the payload is lines of at most 76 symbols that decode to the data |
| SesEnvelope.Parameters | src/ses-envelope.php:195-248 | The parameters of either request; `RawRequest`, `ParametersUniqueKeys` and `BccDroppedWithAttachments` prove what they hold |
| SesEnvelope.ParametersUniqueKeys | src/ses-envelope.php:195-248 | Either request has distinct keys |
| SesEnvelope.RawRequest | src/ses-envelope.php:199-203 | With attachments the request holds only RawMessage.Data, which decodes to the document |
| SesEnvelope.BccDroppedWithAttachments | src/ses-envelope.php:199-203 | With attachments the Bcc addresses do not reach the request |
| SesEnvelope.SimpleEmailServiceEnvelope.constructor | src/ses-envelope.php:13-46 | Sender, subject and bodies stored; charset UTF-8; lists empty; no return path; action SendEmail |
| SesEnvelope.SimpleEmailServiceEnvelope.AddTo | src/ses-envelope.php:55-62 | The To list is extended as `Added` says, and nothing else changes |
| SesEnvelope.SimpleEmailServiceEnvelope.AddCc | src/ses-envelope.php:71-78 | The same for the Cc list |
| SesEnvelope.SimpleEmailServiceEnvelope.AddBcc | src/ses-envelope.php:87-94 | The same for the Bcc list |
| SesEnvelope.SimpleEmailServiceEnvelope.AddReplyTo | src/ses-envelope.php:103-110 | The same for the Reply-To list |
| SesEnvelope.SimpleEmailServiceEnvelope.SetCharset | src/ses-envelope.php:119-122 | The charset is replaced, and nothing else changes |
| SesEnvelope.SimpleEmailServiceEnvelope.AddAttachmentFromData | src/ses-envelope.php:134-142 | The attachment is appended after the earlier ones |
| SesEnvelope.SimpleEmailServiceEnvelope.Validate | src/ses-envelope.php:167-188 | Returns `Validation` of the contents: valid if and only if there is a destination and the sender, subject and plain body are non-empty |
| SesEnvelope.SimpleEmailServiceEnvelope.BuildParameters | src/ses-envelope.php:195-248 | Returns `Parameters` of the contents; the action becomes SendRawEmail with attachments and is untouched otherwise |
| SesEnvelope.SimpleEmailServiceEnvelope.RecipientFields | src/ses-envelope.php:206-226 | The four recipient loops produce the numbered To and Cc members and the member-1 Bcc and Reply-To entries |
| SesEnvelope.SimpleEmailServiceEnvelope.SendMessageFields | src/ses-envelope.php:228-247 | The remaining assignments complete the SendEmail parameters |
| SesEnvelope.SimpleEmailServiceEnvelope.BuildRaw | src/ses-envelope.php:255-305 | Returns `RawMessage` of the contents |
| SesEnvelope.SimpleEmailServiceEnvelope.RawFront | src/ses-envelope.php:258-290 | Everything before the attachment parts |
| SesEnvelope.SimpleEmailServiceEnvelope.RawAddresses | src/ses-envelope.php:258-270 | The address headers, each present if and only if its list is non-empty, with the Bcc line listing the Cc addresses |
| SesEnvelope.SimpleEmailServiceEnvelope.RawMime | src/ses-envelope.php:272-277 | The encoded-word subject, MIME-Version and the multipart/mixed and multipart/alternative headers |
| SesEnvelope.SimpleEmailServiceEnvelope.RawAlternatives | src/ses-envelope.php:279-290 | The plain and HTML parts, each present only when non-empty, then the closing alternative delimiter |

## Left out

- HTTP transport and response parsing are not modelled, because they are I/O through foreign libraries. This covers `_request`, the Guzzle client and the SimpleXML reads (src/ses.php:53, 83-93, 373-387). A signing call ends once the request is signed and its headers and query string are stored.
- The public methods `verifyEmailIdentity`, `deleteIdentity`, `sendEmail`, `getSendQuota` and `getSendStatistics` are left out. Each is a check followed by signing and transport, the same pattern modelled for `listIdentities` and `getIdentityVerificationAttributes`.
- SHA-256 and HMAC-SHA256 are parameters (`Signer.Crypto`), not computations.
- The clock is left out: `RefreshDate` takes both readings as inputs. Two `gmdate` calls that straddle midnight could therefore disagree, and the model does not capture that.
- The MIME boundary (`md5(uniqid(rand()))`) is a parameter of `BuildParameters` and `BuildRaw`. The source does not check that the boundary is absent from the bodies, and neither does the model.
- `FILTER_VALIDATE_EMAIL` is a parameter predicate (`isEmail`), because its definition lives inside PHP.
- `addAttachmentFromFile` is left out, because it reads the file system.
- An add-method's argument is a single string or an array of strings. Other PHP values are not modelled.
- The key gaps that `array_unique` leaves are not modelled; lists are sequences. `buildParameters` numbers members with its own counter, so the gaps are never visible.
- `getIdentityVerificationAttributes` with a non-array argument is modelled as `None`, which sends no identities, as the source does.
- `_buildRaw` and `buildParameters` are each split into several methods of the class (`RawFront`, `RawAddresses`, `RawMime`, `RawAlternatives`, `RecipientFields`, `SendMessageFields`). Together they perform the same assignments in the same order.
- PhpArray.Put: its contract states only the assigned key and the append case; the fact that other keys are unchanged is the separate lemma `PutOther`.
- PHP's loose `==` in `switch` is taken as string equality. None of the listed codes is numeric, so the two agree.
