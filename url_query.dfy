/**
 * `rawurlencode` and `http_build_query($a, '', '&', PHP_QUERY_RFC3986)`:
 * percent-encoding of section 2.1 of RFC 3986, which keeps only the
 * unreserved characters of section 2.3, and the query string built from a
 * PHP array. A parser for the same text is given to show that nothing is
 * lost or run together.
 */
module UrlQuery {
  import opened Text
  import opened PhpArray

  /** The unreserved characters of RFC 3986 section 2.3. */
  predicate Unreserved(c: Byte) {
    'A' <= c <= 'Z' || 'a' <= c <= 'z' || '0' <= c <= '9' || c == '-' || c == '.' || c == '_' || c == '~'
  }

  /** `rawurlencode`: unreserved bytes stay as they are; every other byte
      becomes "%" and its two upper-case hexadecimal digits. */
  function PercentEncode(s: Bytes): (r: Bytes)
    ensures forall i :: 0 <= i < |r| ==> Unreserved(r[i]) || r[i] == '%'
    ensures |r| >= |s|
  {
    if s == [] then []
    else
      var b := s[0] as int;
      (if Unreserved(s[0]) then [s[0]] else ['%', HexDigit(b / 16, true), HexDigit(b % 16, true)])
      + PercentEncode(s[1..])
  }

  /** Reading percent-encoded text back; None for a "%" not followed by two hex digits. */
  function PercentDecode(t: Bytes): Option<Bytes>
    decreases |t|
  {
    if t == [] then Some([])
    else if t[0] != '%' then
      match PercentDecode(t[1..])
      case Some(r) => Some([t[0]] + r)
      case None => None
    else if |t| < 3 then None
    else
      match (HexValue(t[1]), HexValue(t[2]), PercentDecode(t[3..]))
      case (Some(hi), Some(lo), Some(r)) => Some([(hi * 16 + lo) as char] + r)
      case _ => None
  }

  /** Percent-encoding is lossless. */
  lemma {:induction false} PercentDecodeEncode(s: Bytes)
    ensures PercentDecode(PercentEncode(s)) == Some(s)
  {
    if s != [] {
      PercentDecodeEncode(s[1..]);
      var b := s[0] as int;
      var t := PercentEncode(s);
      if Unreserved(s[0]) {
        assert t[1..] == PercentEncode(s[1..]);
      } else {
        HexDigitValue(b / 16, true);
        HexDigitValue(b % 16, true);
        assert t[3..] == PercentEncode(s[1..]);
      }
      assert [s[0]] + s[1..] == s;
    }
  }

  /** A space is sent as "%20", never as "+". */
  lemma SpaceEncoding()
    ensures PercentEncode(" ") == "%20"
  {
  }

  /** Text made of unreserved characters is sent unchanged. */
  lemma {:induction false} UnreservedUnchanged(s: Bytes)
    requires forall i :: 0 <= i < |s| ==> Unreserved(s[i])
    ensures PercentEncode(s) == s
  {
    if s != [] {
      UnreservedUnchanged(s[1..]);
      assert [s[0]] + s[1..] == s;
    }
  }

  /** One `key=value` pair of the query string. */
  function Pair(e: Entry): Bytes {
    PercentEncode(e.key) + "=" + PercentEncode(e.value)
  }

  function Pairs(a: Array): seq<Bytes> {
    seq(|a|, i requires 0 <= i < |a| => Pair(a[i]))
  }

  /** `http_build_query($a, '', '&', PHP_QUERY_RFC3986)` on an array of string
      keys and values: the pairs in array order, joined by "&". */
  function BuildQuery(a: Array): Bytes {
    Join(Pairs(a), "&")
  }

  /** Reads one `key=value` pair. */
  function ParsePair(p: Bytes): Option<Entry> {
    var i := IndexOf(p, '=');
    if i == |p| then None
    else
      match (PercentDecode(p[..i]), PercentDecode(p[i + 1..]))
      case (Some(k), Some(v)) => Some(Entry(k, v))
      case _ => None
  }

  function ParsePairs(ps: seq<Bytes>): Option<Array> {
    if ps == [] then Some([])
    else
      match (ParsePair(ps[0]), ParsePairs(ps[1..]))
      case (Some(e), Some(rest)) => Some([e] + rest)
      case _ => None
  }

  /** Reads a non-empty query string back into its array. */
  function ParseQuery(q: Bytes): Option<Array> {
    ParsePairs(Split(q, '&'))
  }

  lemma ParsePairOfPair(e: Entry)
    ensures ParsePair(Pair(e)) == Some(e)
  {
    var k, v := PercentEncode(e.key), PercentEncode(e.value);
    assert '=' !in k by {
      assert forall i :: 0 <= i < |k| ==> k[i] != '=';
    }
    IndexOfAfter(k, '=', v);
    var p := Pair(e);
    assert p[..|k|] == k && p[|k| + 1..] == v;
    PercentDecodeEncode(e.key);
    PercentDecodeEncode(e.value);
  }

  lemma {:induction false} ParsePairsOfPairs(a: Array)
    ensures ParsePairs(Pairs(a)) == Some(a)
  {
    if a != [] {
      ParsePairOfPair(a[0]);
      assert Pairs(a)[1..] == Pairs(a[1..]);
      ParsePairsOfPairs(a[1..]);
      assert [a[0]] + a[1..] == a;
    }
  }

  /** Encoded pairs never contain the "&" that separates them. */
  lemma PairHasNoAmpersand(e: Entry)
    ensures '&' !in Pair(e)
  {
    var k, v := PercentEncode(e.key), PercentEncode(e.value);
    assert forall i :: 0 <= i < |k| ==> k[i] != '&';
    assert forall i :: 0 <= i < |v| ==> v[i] != '&';
    var p := Pair(e);
    assert forall i :: 0 <= i < |p| ==> p[i] != '&' by {
      forall i | 0 <= i < |p| ensures p[i] != '&' {
        if i < |k| { assert p[i] == k[i]; }
        else if i > |k| { assert p[i] == v[i - |k| - 1]; }
      }
    }
  }

  /** The query string of a non-empty array determines the array: its keys,
      values and order are read back exactly. */
  lemma ParseBuildQuery(a: Array)
    requires a != []
    ensures ParseQuery(BuildQuery(a)) == Some(a)
  {
    forall i | 0 <= i < |a| ensures '&' !in Pairs(a)[i] {
      PairHasNoAmpersand(a[i]);
    }
    assert "&" == ['&'];
    SplitJoin(Pairs(a), '&');
    ParsePairsOfPairs(a);
  }

  /** A query string never contains a line break, so it fills exactly one
      line of a canonical request. */
  lemma {:induction false} QueryHasNoLineBreak(a: Array)
    ensures '\n' !in BuildQuery(a)
    decreases |a|
  {
    if |a| >= 1 {
      var p := Pair(a[0]);
      var k, v := PercentEncode(a[0].key), PercentEncode(a[0].value);
      assert forall i :: 0 <= i < |k| ==> k[i] != '\n';
      assert forall i :: 0 <= i < |v| ==> v[i] != '\n';
      assert forall i :: 0 <= i < |p| ==> p[i] != '\n' by {
        forall i | 0 <= i < |p| ensures p[i] != '\n' {
          if i < |k| { assert p[i] == k[i]; }
          else if i > |k| { assert p[i] == v[i - |k| - 1]; }
        }
      }
      if |a| >= 2 {
        QueryHasNoLineBreak(a[1..]);
        assert Pairs(a)[1..] == Pairs(a[1..]);
        var rest := BuildQuery(a[1..]);
        var q := p + "&" + rest;
        assert forall i :: 0 <= i < |q| ==> q[i] != '\n' by {
          forall i | 0 <= i < |q| ensures q[i] != '\n' {
            if i < |p| { assert q[i] == p[i]; }
            else if i > |p| { assert q[i] == rest[i - |p| - 1]; assert rest[i - |p| - 1] in rest; }
          }
        }
      }
    }
  }
}
