/**
 * The request signer of `SimpleEmailService`: the service host and endpoint
 * derived from the region, the AWS Signature Version 4 recipe (canonical
 * query, canonical request, credential scope, string to sign, the chain of
 * HMAC signing keys and the Authorization header), and the parameter
 * checking and numbering that `listIdentities` and
 * `getIdentityVerificationAttributes` do before they sign.
 *
 * SHA-256 and HMAC-SHA256 are not modelled: they are passed in as functions,
 * so that the model states which bytes reach them and in which order.
 */
module Signer {
  import opened Text
  import opened PhpArray
  import opened UrlQuery

  const Service: Bytes := "email"
  const Domain: Bytes := "amazonaws.com"
  const Algorithm: Bytes := "AWS4-HMAC-SHA256"
  const SignedHeaderNames: Bytes := "host;x-amz-date"
  const ScopeEnd: Bytes := "aws4_request"
  const DefaultRegion: Bytes := "us-east-1"
  const AuthorizationKey: Bytes := "Authorization"
  const AmzDateKey: Bytes := "x-amz-date"
  const HttpGet: Bytes := "GET"
  const ListIdentitiesAction: Bytes := "ListIdentities"
  const GetAttributesAction: Bytes := "GetIdentityVerificationAttributes"
  const IdentityTypeKey: Bytes := "IdentityType"
  const ActionKey: Bytes := "Action"

  /** Raw-output SHA-256, and raw-output HMAC-SHA256 taking the key first. */
  datatype Crypto = Crypto(sha256: Bytes -> Bytes, hmacSha256: (Bytes, Bytes) -> Bytes)

  /** `hash('sha256', data)`: the digest as lower-case hexadecimal text. */
  function HashHex(c: Crypto, data: Bytes): (r: Bytes)
    ensures UnHex(r) == Some(c.sha256(data))
    ensures '\n' !in r
  {
    UnHexLowerHex(c.sha256(data));
    LowerHexNoLineBreak(c.sha256(data));
    LowerHex(c.sha256(data))
  }

  /** `hash_hmac('sha256', data, key)`: the MAC as lower-case hexadecimal text. */
  function HmacHex(c: Crypto, key: Bytes, data: Bytes): (r: Bytes)
    ensures UnHex(r) == Some(c.hmacSha256(key, data))
    ensures |r| == 2 * |c.hmacSha256(key, data)|
  {
    UnHexLowerHex(c.hmacSha256(key, data));
    LowerHex(c.hmacSha256(key, data))
  }

  /* ------------------------------------------------------------------ */
  /* Host and endpoint                                                   */
  /* ------------------------------------------------------------------ */

  function Host(region: Bytes): Bytes {
    Service + "." + region + "." + Domain
  }

  function Endpoint(region: Bytes): Bytes {
    "https://" + Service + "." + region + "." + Domain
  }

  /** The endpoint is the host behind "https://". */
  lemma EndpointIsHost(region: Bytes)
    ensures Endpoint(region) == "https://" + Host(region)
  {
    var scheme: Bytes := "https://";
    assert scheme + Service + "." + region + "." + Domain == scheme + (Service + "." + region + "." + Domain);
  }

  /** The host names the region: it sits between the six bytes "email."
      and the fourteen bytes ".amazonaws.com", so the host determines it. */
  lemma HostNamesRegion(region: Bytes)
    ensures |Host(region)| == |region| + 20
    ensures Host(region)[6..|region| + 6] == region
  {
    var front: Bytes := Service + ".";
    var back: Bytes := "." + Domain;
    assert |front| == 6 && |back| == 14;
    assert Host(region) == front + region + back;
    assert (front + region + back)[6..|region| + 6] == region;
  }

  /* ------------------------------------------------------------------ */
  /* Canonical query                                                     */
  /* ------------------------------------------------------------------ */

  /** The parameters as signed: the caller's, with Action set to the current
      action (overwriting any Action the caller gave), sorted by key. */
  function SignedParameters(params: Array, action: Bytes): (r: Array)
    requires UniqueKeys(params)
    ensures SortedByKey(r)
    ensures Lookup(r, ActionKey) == Some(action)
    ensures forall k :: k != ActionKey ==> Lookup(r, k) == Lookup(params, k)
  {
    var withAction := Put(params, ActionKey, action);
    PutUniqueKeys(params, ActionKey, action);
    assert forall k :: Lookup(KSort(withAction), k) == Lookup(withAction, k) by {
      forall k ensures Lookup(KSort(withAction), k) == Lookup(withAction, k) {
        LookupKSort(withAction, k);
      }
    }
    assert forall k :: k != ActionKey ==> Lookup(withAction, k) == Lookup(params, k) by {
      forall k | k != ActionKey ensures Lookup(withAction, k) == Lookup(params, k) {
        PutOther(params, ActionKey, action, k);
      }
    }
    KSort(withAction)
  }

  /** The query string that is signed and sent: one line, from which the
      signed parameters are read back exactly. */
  function CanonicalQuery(params: Array, action: Bytes): (r: Bytes)
    requires UniqueKeys(params)
    ensures '\n' !in r
    ensures ParseQuery(r) == Some(SignedParameters(params, action))
  {
    var signed := SignedParameters(params, action);
    assert signed != [] by {
      assert Lookup(signed, ActionKey).Some?;
    }
    QueryHasNoLineBreak(signed);
    ParseBuildQuery(signed);
    BuildQuery(signed)
  }

  /** Two requests ask for the same thing: the same action, and every other
      key reads the same. */
  ghost predicate SameRequest(p1: Array, a1: Bytes, p2: Array, a2: Bytes) {
    a1 == a2 && forall k :: k != ActionKey ==> Lookup(p1, k) == Lookup(p2, k)
  }

  /** Equal canonical queries come from the same action and parameters. */
  lemma CanonicalQueryInjective(p1: Array, a1: Bytes, p2: Array, a2: Bytes)
    requires UniqueKeys(p1) && UniqueKeys(p2)
    requires CanonicalQuery(p1, a1) == CanonicalQuery(p2, a2)
    ensures SameRequest(p1, a1, p2, a2)
  {
    var s1, s2 := SignedParameters(p1, a1), SignedParameters(p2, a2);
    assert s1 != [] && s2 != [];
    ParseBuildQuery(s1);
    ParseBuildQuery(s2);
    assert s1 == s2;
  }

  /** The same action and parameters give the same canonical query, whatever
      order the caller put the parameters in. */
  lemma CanonicalQueryOrderFree(p1: Array, a1: Bytes, p2: Array, a2: Bytes)
    requires UniqueKeys(p1) && UniqueKeys(p2)
    requires SameRequest(p1, a1, p2, a2)
    ensures CanonicalQuery(p1, a1) == CanonicalQuery(p2, a2)
  {
    var s1, s2 := SignedParameters(p1, a1), SignedParameters(p2, a2);
    forall k ensures Lookup(s1, k) == Lookup(s2, k) {
      if k != ActionKey {
        assert Lookup(s1, k) == Lookup(p1, k);
      }
    }
    SortedLookupEqual(s1, s2);
  }

  /** The canonical query names the action and every caller parameter
      exactly: two requests share it if and only if they ask for the same
      thing. */
  lemma CanonicalQueryDetermines(p1: Array, a1: Bytes, p2: Array, a2: Bytes)
    requires UniqueKeys(p1) && UniqueKeys(p2)
    ensures CanonicalQuery(p1, a1) == CanonicalQuery(p2, a2) <==> SameRequest(p1, a1, p2, a2)
  {
    var q1, q2 := CanonicalQuery(p1, a1), CanonicalQuery(p2, a2);
    if q1 == q2 {
      CanonicalQueryInjective(p1, a1, p2, a2);
    }
    if SameRequest(p1, a1, p2, a2) {
      CanonicalQueryOrderFree(p1, a1, p2, a2);
    }
  }

  /** Keys are compared as bytes, not as numbers: the tenth member sorts
      before the second. */
  lemma MemberTenBeforeTwo(prefix: Bytes)
    ensures Below(MemberKey(prefix, 10), MemberKey(prefix, 2))
  {
    assert Decimal(10) == "10";
    assert Decimal(2) == "2";
    assert Below("10", "2");
    BelowCommonPrefix(prefix, "10", "2");
  }

  /* ------------------------------------------------------------------ */
  /* Canonical request                                                   */
  /* ------------------------------------------------------------------ */

  /** The eight lines of the canonical request (task 1 of Signature
      Version 4): the method, the URI "/", the query, the two canonical
      header lines, the empty line that ends the headers, the signed header
      names and the hash of the payload, which is always empty. */
  function CanonicalRequestLines(httpMethod: Bytes, query: Bytes, host: Bytes, amzDate: Bytes, payloadHash: Bytes): seq<Bytes> {
    [httpMethod, "/", query, "host:" + host, "x-amz-date:" + amzDate, "", SignedHeaderNames, payloadHash]
  }

  /** The canonical request: its lines, each but the last ended by "\n". */
  function CanonicalRequest(httpMethod: Bytes, query: Bytes, host: Bytes, amzDate: Bytes, payloadHash: Bytes): Bytes {
    Join(CanonicalRequestLines(httpMethod, query, host, amzDate, payloadHash), "\n")
  }

  /** When no line holds a line break, the canonical request splits back into
      exactly its eight lines. */
  lemma CanonicalRequestSplits(httpMethod: Bytes, query: Bytes, host: Bytes, amzDate: Bytes, payloadHash: Bytes)
    requires '\n' !in httpMethod && '\n' !in query && '\n' !in host && '\n' !in amzDate && '\n' !in payloadHash
    ensures Split(CanonicalRequest(httpMethod, query, host, amzDate, payloadHash), '\n')
         == CanonicalRequestLines(httpMethod, query, host, amzDate, payloadHash)
  {
    var lines := CanonicalRequestLines(httpMethod, query, host, amzDate, payloadHash);
    NoByteInConcat("host:", host, '\n');
    NoByteInConcat("x-amz-date:", amzDate, '\n');
    assert forall k :: 0 <= k < |lines| ==> '\n' !in lines[k];
    assert "\n" == ['\n'];
    SplitJoin(lines, '\n');
  }

  /** Lines free of line breaks are read back from the canonical request:
      equal requests have the same method, query, host and date. */
  lemma CanonicalRequestInjective(m1: Bytes, q1: Bytes, h1: Bytes, d1: Bytes,
                                  m2: Bytes, q2: Bytes, h2: Bytes, d2: Bytes, payloadHash: Bytes)
    requires '\n' !in m1 && '\n' !in q1 && '\n' !in h1 && '\n' !in d1
    requires '\n' !in m2 && '\n' !in q2 && '\n' !in h2 && '\n' !in d2
    requires '\n' !in payloadHash
    requires CanonicalRequest(m1, q1, h1, d1, payloadHash) == CanonicalRequest(m2, q2, h2, d2, payloadHash)
    ensures m1 == m2 && q1 == q2 && h1 == h2 && d1 == d2
  {
    CanonicalRequestSplits(m1, q1, h1, d1, payloadHash);
    CanonicalRequestSplits(m2, q2, h2, d2, payloadHash);
    var l1, l2 := CanonicalRequestLines(m1, q1, h1, d1, payloadHash), CanonicalRequestLines(m2, q2, h2, d2, payloadHash);
    assert l1 == l2;
    assert l1[3][5..] == h1 && l2[3][5..] == h2;
    assert l1[4][11..] == d1 && l2[4][11..] == d2;
  }

  /** The canonical request of a request determines its method, host, date,
      action and every caller parameter. */
  lemma CanonicalRequestDetermines(c: Crypto,
      m1: Bytes, p1: Array, a1: Bytes, h1: Bytes, d1: Bytes,
      m2: Bytes, p2: Array, a2: Bytes, h2: Bytes, d2: Bytes)
    requires '\n' !in m1 && '\n' !in h1 && '\n' !in d1
    requires '\n' !in m2 && '\n' !in h2 && '\n' !in d2
    requires UniqueKeys(p1) && UniqueKeys(p2)
    requires CanonicalRequest(m1, CanonicalQuery(p1, a1), h1, d1, HashHex(c, ""))
          == CanonicalRequest(m2, CanonicalQuery(p2, a2), h2, d2, HashHex(c, ""))
    ensures m1 == m2 && h1 == h2 && d1 == d2 && SameRequest(p1, a1, p2, a2)
  {
    QueryHasNoLineBreak(SignedParameters(p1, a1));
    QueryHasNoLineBreak(SignedParameters(p2, a2));
    CanonicalRequestInjective(m1, CanonicalQuery(p1, a1), h1, d1, m2, CanonicalQuery(p2, a2), h2, d2, HashHex(c, ""));
    CanonicalQueryInjective(p1, a1, p2, a2);
  }

  /* ------------------------------------------------------------------ */
  /* Credential scope, string to sign, signing key                       */
  /* ------------------------------------------------------------------ */

  /** The four components of the credential scope, in order. */
  function ScopeParts(date: Bytes, region: Bytes): seq<Bytes> {
    [date, region, Service, ScopeEnd]
  }

  /** The credential scope: date, region, service and "aws4_request",
      separated by "/". */
  function CredentialScope(date: Bytes, region: Bytes): Bytes {
    Join(ScopeParts(date, region), "/")
  }

  /** When the date and region hold no "/", the scope splits back into its
      four components. */
  lemma CredentialScopeSplits(date: Bytes, region: Bytes)
    requires '/' !in date && '/' !in region
    ensures Split(CredentialScope(date, region), '/') == ScopeParts(date, region)
  {
    var parts := ScopeParts(date, region);
    assert forall k :: 0 <= k < |parts| ==> '/' !in parts[k];
    assert "/" == ['/'];
    SplitJoin(parts, '/');
  }

  /** The four lines of the string to sign (task 2 of Signature Version 4);
      `requestHash` is the hash of the canonical request. */
  function StringToSignLines(amzDate: Bytes, scope: Bytes, requestHash: Bytes): seq<Bytes> {
    [Algorithm, amzDate, scope, requestHash]
  }

  function StringToSign(amzDate: Bytes, scope: Bytes, requestHash: Bytes): Bytes {
    Join(StringToSignLines(amzDate, scope, requestHash), "\n")
  }

  /** The string to sign splits back into its four lines. */
  lemma StringToSignSplits(amzDate: Bytes, scope: Bytes, requestHash: Bytes)
    requires '\n' !in amzDate && '\n' !in scope && '\n' !in requestHash
    ensures Split(StringToSign(amzDate, scope, requestHash), '\n') == StringToSignLines(amzDate, scope, requestHash)
  {
    var lines := StringToSignLines(amzDate, scope, requestHash);
    assert forall k :: 0 <= k < |lines| ==> '\n' !in lines[k];
    assert "\n" == ['\n'];
    SplitJoin(lines, '\n');
  }

  /** The last line of the string to sign carries the digest of the
      canonical request, which is read back from it. */
  lemma StringToSignCarriesDigest(c: Crypto, amzDate: Bytes, scope: Bytes, canonicalRequest: Bytes)
    requires '\n' !in amzDate && '\n' !in scope
    ensures var l := Split(StringToSign(amzDate, scope, HashHex(c, canonicalRequest)), '\n');
      |l| == 4 && UnHex(l[3]) == Some(c.sha256(canonicalRequest))
  {
    StringToSignSplits(amzDate, scope, HashHex(c, canonicalRequest));
  }

  /** `_generateSignatureKey`: four HMACs, the first keyed by "AWS4" and the
      secret, over the date, the region, the service and "aws4_request". */
  function SigningKey(c: Crypto, secretKey: Bytes, date: Bytes, region: Bytes): Bytes {
    var dateKey := c.hmacSha256("AWS4" + secretKey, date);
    var regionKey := c.hmacSha256(dateKey, region);
    var serviceKey := c.hmacSha256(regionKey, Service);
    c.hmacSha256(serviceKey, ScopeEnd)
  }

  /** Each part, in turn, MACed under the key obtained so far. */
  function HmacChain(c: Crypto, key: Bytes, parts: seq<Bytes>): Bytes
    decreases |parts|
  {
    if parts == [] then key else HmacChain(c, c.hmacSha256(key, parts[0]), parts[1..])
  }

  /** The signing key is derived from exactly the components of the
      credential scope, in the order they appear in it. */
  lemma SigningKeyFollowsScope(c: Crypto, secretKey: Bytes, date: Bytes, region: Bytes)
    ensures SigningKey(c, secretKey, date, region) == HmacChain(c, "AWS4" + secretKey, ScopeParts(date, region))
  {
    var l3: seq<Bytes> := [ScopeEnd];
    var l2 := [Service] + l3;
    var l1 := [region] + l2;
    var l0 := [date] + l1;
    assert l0 == ScopeParts(date, region);
    var k0 := "AWS4" + secretKey;
    var k1 := c.hmacSha256(k0, date);
    var k2 := c.hmacSha256(k1, region);
    var k3 := c.hmacSha256(k2, Service);
    var k4 := c.hmacSha256(k3, ScopeEnd);
    assert l3[1..] == [];
    assert HmacChain(c, k4, []) == k4;
    assert HmacChain(c, k3, l3) == k4;
    assert l2[1..] == l3;
    assert HmacChain(c, k2, l2) == k4;
    assert l1[1..] == l2;
    assert HmacChain(c, k1, l1) == k4;
    assert l0[1..] == l1;
    assert HmacChain(c, k0, l0) == k4;
  }

  /** The header value: algorithm, credential, signed headers and signature. */
  function AuthorizationHeader(accessKey: Bytes, scope: Bytes, signature: Bytes): Bytes {
    Algorithm + " Credential=" + accessKey + "/" + scope + ", SignedHeaders="
    + SignedHeaderNames + ", Signature=" + signature
  }

  /** The Authorization header of a request (task 3 of Signature Version 4). */
  function Authorization(c: Crypto, accessKey: Bytes, secretKey: Bytes, region: Bytes, host: Bytes,
                         date: Bytes, amzDate: Bytes, httpMethod: Bytes, query: Bytes): Bytes
  {
    var scope := CredentialScope(date, region);
    var request := CanonicalRequest(httpMethod, query, host, amzDate, HashHex(c, ""));
    var key := SigningKey(c, secretKey, date, region);
    AuthorizationHeader(accessKey, scope, HmacHex(c, key, StringToSign(amzDate, scope, HashHex(c, request))))
  }

  /** The headers a signed request carries: the authorization, then the
      date it was signed at. */
  function SignedHeaders(c: Crypto, accessKey: Bytes, secretKey: Bytes, region: Bytes, host: Bytes,
                         date: Bytes, amzDate: Bytes, httpMethod: Bytes, query: Bytes): Array
  {
    [Entry(AuthorizationKey, Authorization(c, accessKey, secretKey, region, host, date, amzDate, httpMethod, query)),
     Entry(AmzDateKey, amzDate)]
  }

  /** The header value is the fixed text naming the credential, followed by
      the signature. */
  lemma AuthorizationHeaderParts(accessKey: Bytes, scope: Bytes, signature: Bytes)
    ensures var h := AuthorizationHeader(accessKey, scope, signature);
      |h| >= |signature| && h[|h| - |signature|..] == signature
      && h[..|h| - |signature|] == Algorithm + " Credential=" + accessKey + "/" + scope + ", SignedHeaders=host;x-amz-date, Signature="
  {
  }

  /** The header ends in the hexadecimal MAC of the string to sign under the
      signing key, and that MAC is read back from it. */
  lemma AuthorizationCarriesSignature(c: Crypto, accessKey: Bytes, secretKey: Bytes, region: Bytes, host: Bytes,
                                      date: Bytes, amzDate: Bytes, httpMethod: Bytes, query: Bytes)
    ensures var h := Authorization(c, accessKey, secretKey, region, host, date, amzDate, httpMethod, query);
      var scope := CredentialScope(date, region);
      var sts := StringToSign(amzDate, scope, HashHex(c, CanonicalRequest(httpMethod, query, host, amzDate, HashHex(c, ""))));
      var mac := c.hmacSha256(SigningKey(c, secretKey, date, region), sts);
      |h| >= 2 * |mac| && UnHex(h[|h| - 2 * |mac|..]) == Some(mac)
      && h[..|h| - 2 * |mac|] == Algorithm + " Credential=" + accessKey + "/" + scope + ", SignedHeaders=host;x-amz-date, Signature="
  {
    var scope := CredentialScope(date, region);
    var sts := StringToSign(amzDate, scope, HashHex(c, CanonicalRequest(httpMethod, query, host, amzDate, HashHex(c, ""))));
    var key := SigningKey(c, secretKey, date, region);
    AuthorizationHeaderParts(accessKey, scope, HmacHex(c, key, sts));
  }

  /* ------------------------------------------------------------------ */
  /* Identity parameters                                                 */
  /* ------------------------------------------------------------------ */

  predicate IdentityTypeWord(t: Bytes) {
    t == "" || t == "EmailAddress" || t == "Domain"
  }

  /** `preg_match('/^(EmailAddress|Domain|)$/', t)`: without the D modifier,
      "$" also matches in front of a final line break. */
  predicate IdentityTypeAccepted(t: Bytes) {
    IdentityTypeWord(t) || (|t| > 0 && t[|t| - 1] == '\n' && IdentityTypeWord(t[..|t| - 1]))
  }

  /** Exactly six identity types pass the check. */
  lemma IdentityTypesAccepted(t: Bytes)
    ensures IdentityTypeAccepted(t) <==>
      t in {"", "EmailAddress", "Domain", "\n", "EmailAddress\n", "Domain\n"}
  {
    if |t| > 0 && t[|t| - 1] == '\n' {
      var w := t[..|t| - 1];
      assert t == w + "\n";
      if t == "\n" {
        assert w == "";
      } else if t == "EmailAddress\n" {
        assert w == "EmailAddress";
      } else if t == "Domain\n" {
        assert w == "Domain";
      }
    }
  }

  /** The parameters `listIdentities` signs: IdentityType only when the type is truthy. */
  function ListIdentitiesParameters(identityType: Bytes): Array {
    if Truthy(identityType) then [Entry(IdentityTypeKey, identityType)] else []
  }

  /** An accepted type is sent unless it is empty; the empty type sends no parameter. */
  lemma ListIdentitiesParametersSent(identityType: Bytes)
    requires IdentityTypeAccepted(identityType)
    ensures identityType == "" <==> ListIdentitiesParameters(identityType) == []
    ensures identityType != "" ==> Lookup(ListIdentitiesParameters(identityType), IdentityTypeKey) == Some(identityType)
  {
    IdentityTypesAccepted(identityType);
  }

  predicate LowerAlnum(c: Byte) {
    'a' <= c <= 'z' || '0' <= c <= '9'
  }

  /** `[a-z\d]+(-[a-z\d]+)*`: lower-case letters and digits, with single
      hyphens only between them. */
  predicate IsLabel(s: Bytes) {
    |s| > 0 && s[0] != '-' && s[|s| - 1] != '-'
    && (forall i :: 0 <= i < |s| ==> LowerAlnum(s[i]) || s[i] == '-')
    && (forall i :: 0 <= i < |s| - 1 ==> s[i] != '-' || s[i + 1] != '-')
  }

  /** `[a-z]{2,}`. */
  predicate IsTopLevel(s: Bytes) {
    |s| >= 2 && forall i :: 0 <= i < |s| ==> 'a' <= s[i] <= 'z'
  }

  /** `([a-z\d]+(-[a-z\d]+)*\.)+[a-z]{2,}` over the whole string: neither
      part can hold a ".", so the dots split the name into one or more
      labels and a final top-level part. */
  predicate IsDomainName(s: Bytes) {
    var parts := Split(s, '.');
    |parts| >= 2 && AllLabels(parts[..|parts| - 1]) && IsTopLevel(parts[|parts| - 1])
  }

  predicate AllLabels(parts: seq<Bytes>) {
    forall i :: 0 <= i < |parts| ==> IsLabel(parts[i])
  }

  /** The domain check of `getIdentityVerificationAttributes`, with "$" also
      matching in front of a final line break. */
  predicate DomainPatternMatches(s: Bytes) {
    IsDomainName(s) || (|s| > 0 && s[|s| - 1] == '\n' && IsDomainName(s[..|s| - 1]))
  }

  lemma LabelHasNoDot(s: Bytes)
    requires IsLabel(s)
    ensures '.' !in s
  {
    assert forall j :: 0 <= j < |s| ==> s[j] != '.';
  }

  /** A top-level part holds no dot either. */
  lemma TopLevelHasNoDot(s: Bytes)
    requires IsTopLevel(s)
    ensures '.' !in s
  {
    assert forall j :: 0 <= j < |s| ==> s[j] != '.';
  }

  /** Dot-free parts joined by dots split back into the same parts. */
  lemma SplitDotted(parts: seq<Bytes>)
    requires |parts| >= 1
    requires forall i :: 0 <= i < |parts| ==> '.' !in parts[i]
    ensures Split(Join(parts, "."), '.') == parts
  {
    assert "." == ['.'];
    SplitJoin(parts, '.');
  }

  /** Labels and a top-level part joined by dots make a domain name. */
  lemma DomainFromLabels(labels: seq<Bytes>, top: Bytes)
    requires |labels| >= 1
    requires AllLabels(labels)
    requires IsTopLevel(top)
    ensures IsDomainName(Join(labels + [top], "."))
  {
    var parts := labels + [top];
    forall i | 0 <= i < |parts| ensures '.' !in parts[i] {
      if i < |labels| {
        LabelHasNoDot(labels[i]);
      } else {
        TopLevelHasNoDot(top);
      }
    }
    SplitDotted(parts);
    assert parts[..|parts| - 1] == labels;
  }

  /** A name without a dot is never a domain name. */
  lemma SingleLabelIsNoDomain(s: Bytes)
    requires '.' !in s
    ensures !IsDomainName(s)
  {
    IndexOfAbsent(s, '.');
  }

  /** What an identity must be: an e-mail address by `FILTER_VALIDATE_EMAIL`
      (passed in as `isEmail`) or a domain name. */
  predicate IdentityAccepted(identity: Bytes, isEmail: Bytes -> bool) {
    isEmail(identity) || DomainPatternMatches(identity)
  }

  /** Every identity of the list is accepted. */
  predicate AllAccepted(ids: seq<Bytes>, isEmail: Bytes -> bool) {
    forall j :: 0 <= j < |ids| ==> IdentityAccepted(ids[j], isEmail)
  }

  lemma AllAcceptedNext(ids: seq<Bytes>, i: nat, isEmail: Bytes -> bool)
    requires i < |ids| && AllAccepted(ids[..i], isEmail) && IdentityAccepted(ids[i], isEmail)
    ensures AllAccepted(ids[..i + 1], isEmail)
  {
  }

  const IdentityPrefix: Bytes := "Identities.member."

  /** The result of a call that signs a request: either the request is signed
      and ready to send, or an exception was thrown before signing. */
  datatype Outcome = Signed | Thrown(message: string)

  const BadIdentityType: string := "IdentityType must be EmailAddress or Domain"
  const BadIdentity: string := "Identity must be EmailAddress or Domain"

  /** The parameters `getIdentityVerificationAttributes` signs: the
      identities numbered from 1 when every one of them is an e-mail address
      or a domain, None when one is not. A non-array argument (None) gives no
      parameters. */
  function IdentityParameters(identities: Option<seq<Bytes>>, isEmail: Bytes -> bool): (r: Option<Array>)
    ensures r.Some? ==> UniqueKeys(r.value)
  {
    match identities
    case None => Some([])
    case Some(ids) =>
      if AllAccepted(ids, isEmail) then
        MembersLookup(IdentityPrefix, ids, 0);
        Some(Members(IdentityPrefix, ids))
      else None
  }

  /** The identities are accepted exactly when each one is an e-mail address
      or a domain; member `n` then holds the `n`-th identity, and no other
      number is sent. */
  lemma IdentityParametersNumbered(ids: seq<Bytes>, isEmail: Bytes -> bool, n: nat)
    ensures IdentityParameters(Some(ids), isEmail).Some? <==>
      forall i :: 0 <= i < |ids| ==> IdentityAccepted(ids[i], isEmail)
    ensures IdentityParameters(Some(ids), isEmail).Some? ==>
      Lookup(IdentityParameters(Some(ids), isEmail).value, MemberKey(IdentityPrefix, n))
        == if 1 <= n <= |ids| then Some(ids[n - 1]) else None
  {
    MembersLookup(IdentityPrefix, ids, n);
  }

  /** One rejected identity anywhere in the list refuses the whole call. */
  lemma OneRejectedIdentityRefuses(ids: seq<Bytes>, isEmail: Bytes -> bool, j: nat)
    requires j < |ids| && !IdentityAccepted(ids[j], isEmail)
    ensures IdentityParameters(Some(ids), isEmail) == None
  {
  }

  /** The numbering loop of `getIdentityVerificationAttributes`: identities
      become `Identities.member.1`, `.2`, ... in order; the first one that is
      neither an e-mail address nor a domain stops it. */
  method NumberIdentities(identities: Option<seq<Bytes>>, isEmail: Bytes -> bool) returns (r: Option<Array>)
    ensures r == IdentityParameters(identities, isEmail)
  {
    var parameters: Array := [];
    var index: nat := 1;
    if identities.Some? {
      var ids := identities.value;
      var i := 0;
      while i < |ids|
        invariant 0 <= i <= |ids| && index == i + 1
        invariant parameters == Members(IdentityPrefix, ids[..i])
        invariant AllAccepted(ids[..i], isEmail)
      {
        if !(isEmail(ids[i]) || DomainPatternMatches(ids[i])) {
          return None;
        }
        AllAcceptedNext(ids, i, isEmail);
        PutNextMember(IdentityPrefix, ids, i, index);
        parameters := Put(parameters, MemberKey(IdentityPrefix, index), ids[i]);
        index := index + 1;
        i := i + 1;
      }
      assert ids[..i] == ids;
    }
    return Some(parameters);
  }

  /* ------------------------------------------------------------------ */
  /* The client                                                          */
  /* ------------------------------------------------------------------ */

  /** The signing state of the client. Transport is not modelled: a request
      ends once it is signed, with its headers and query string stored. */
  class SimpleEmailService {
    const accessKey: Bytes
    const secretKey: Bytes
    const region: Bytes
    const host: Bytes
    const endpoint: Bytes
    var amzDate: Bytes
    var date: Bytes
    var action: Bytes
    var httpMethod: Bytes
    var headers: Array
    var queryParameters: Bytes

    constructor(accessKey: Bytes, secretKey: Bytes, region: Bytes := DefaultRegion)
      ensures this.accessKey == accessKey && this.secretKey == secretKey && this.region == region
      ensures host == Host(region) && endpoint == Endpoint(region)
      ensures endpoint == "https://" + host
      ensures headers == [] && queryParameters == []
    {
      this.accessKey := accessKey;
      this.secretKey := secretKey;
      this.region := region;
      host := Service + "." + region + "." + Domain;
      endpoint := "https://" + Service + "." + region + "." + Domain;
      // These fields are null in PHP until the first call sets them; nothing
      // reads them before that, so empty values stand in for null.
      amzDate, date, action, httpMethod := [], [], [], [];
      headers, queryParameters := [], [];
    }

    /** The stored request is `query`, signed with the current state. */
    predicate SignedFor(c: Crypto, query: Bytes)
      reads this
    {
      queryParameters == query
      && headers == SignedHeaders(c, accessKey, secretKey, region, host, date, amzDate, httpMethod, query)
    }

    /** `_refreshDate`: the clock readings are passed in. */
    method RefreshDate(amzDate: Bytes, date: Bytes)
      modifies this`amzDate, this`date
      ensures this.amzDate == amzDate && this.date == date
    {
      this.amzDate := amzDate;
      this.date := date;
    }

    /** `_generateSignature`: signs `parameters` for the current action,
        method and dates, storing the two headers and the query string. */
    method GenerateSignature(c: Crypto, parameters: Array)
      requires UniqueKeys(parameters)
      modifies this`headers, this`queryParameters
      ensures SignedFor(c, CanonicalQuery(parameters, action))
    {
      headers := [];
      var params := Put(parameters, ActionKey, action);
      params := KSort(params);
      var requestParameters := BuildQuery(params);
      var payloadHash := HashHex(c, "");
      var canonicalRequest := CanonicalRequest(httpMethod, requestParameters, host, amzDate, payloadHash);
      var credentialScope := CredentialScope(date, region);
      var stringToSign := StringToSign(amzDate, credentialScope, HashHex(c, canonicalRequest));
      var signingKey := SigningKey(c, secretKey, date, region);
      var signature := HmacHex(c, signingKey, stringToSign);
      assert params == SignedParameters(parameters, action);
      var authorization := AuthorizationHeader(accessKey, credentialScope, signature);
      assert authorization == Authorization(c, accessKey, secretKey, region, host, date, amzDate, httpMethod, requestParameters);
      // Both keys are new to the emptied array: they land in this order.
      headers := [Entry(AuthorizationKey, authorization), Entry(AmzDateKey, amzDate)];
      queryParameters := requestParameters;
    }

    /** `listIdentities` up to the request: sets the action, method and dates,
        then refuses any type the pattern rejects, or signs. */
    method ListIdentities(c: Crypto, now: Bytes, today: Bytes, identityType: Bytes := "") returns (r: Outcome)
      modifies this
      ensures action == ListIdentitiesAction && httpMethod == HttpGet && amzDate == now && date == today
      ensures r == Signed <==> IdentityTypeAccepted(identityType)
      ensures r != Signed ==> r == Thrown(BadIdentityType)
      ensures r != Signed ==> headers == old(headers) && queryParameters == old(queryParameters)
      ensures r == Signed ==> SignedFor(c, CanonicalQuery(ListIdentitiesParameters(identityType), action))
    {
      action := ListIdentitiesAction;
      httpMethod := HttpGet;
      RefreshDate(now, today);
      assert action == ListIdentitiesAction && httpMethod == HttpGet;
      if !IdentityTypeAccepted(identityType) {
        return Thrown(BadIdentityType);
      }
      var parameters: Array := [];
      if Truthy(identityType) {
        parameters := Put(parameters, IdentityTypeKey, identityType);
      }
      GenerateSignature(c, parameters);
      assert action == ListIdentitiesAction && httpMethod == HttpGet;
      return Signed;
    }

    /** `getIdentityVerificationAttributes` up to the request: sets the action,
        method and dates, numbers the identities, or refuses the first
        identity that is neither an e-mail address nor a domain. */
    method GetIdentityVerificationAttributes(c: Crypto, now: Bytes, today: Bytes,
                                             identities: Option<seq<Bytes>>, isEmail: Bytes -> bool)
      returns (r: Outcome)
      modifies this
      ensures action == GetAttributesAction && httpMethod == HttpGet && amzDate == now && date == today
      ensures r == Signed <==> IdentityParameters(identities, isEmail).Some?
      ensures r != Signed ==> r == Thrown(BadIdentity)
      ensures r != Signed ==> headers == old(headers) && queryParameters == old(queryParameters)
      ensures r == Signed ==> SignedFor(c, CanonicalQuery(IdentityParameters(identities, isEmail).value, action))
    {
      action := GetAttributesAction;
      httpMethod := HttpGet;
      RefreshDate(now, today);
      assert action == GetAttributesAction && httpMethod == HttpGet;
      var parameters := NumberIdentities(identities, isEmail);
      if parameters.None? {
        return Thrown(BadIdentity);
      }
      GenerateSignature(c, parameters.value);
      assert action == GetAttributesAction && httpMethod == HttpGet;
      return Signed;
    }
  }
}
