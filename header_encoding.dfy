/**
 * `_encodeHeader` of the envelope: a header value that matches the pattern
 * `(.*)<(.*)>` is rewritten as an RFC 2047 section 4.1 "B" encoded-word
 * carrying the text in front of the "<", followed by the address in angle
 * brackets; a value without such a pair is kept as it is, and a list of
 * values is encoded element by element and joined with ", ".
 */
module HeaderEncoding {
  import opened Text
  import Base64

  /** Position of the last occurrence of `c` in `s`, or `|s|` when there is none. */
  function LastIndexOf(s: Bytes, c: Byte): (r: nat)
    ensures r <= |s|
    ensures r < |s| ==> s[r] == c && c !in s[r + 1..]
    ensures r == |s| ==> c !in s
    decreases |s|
  {
    if s == [] then 0
    else if s[|s| - 1] == c then
      assert s[|s|..] == [];
      |s| - 1
    else
      var init := s[..|s| - 1];
      var r := LastIndexOf(init, c);
      assert s == init + [s[|s| - 1]];
      if r == |init| then
        NoByteInConcat(init, [s[|s| - 1]], c);
        |s|
      else
        assert s[r + 1..] == init[r + 1..] + [s[|s| - 1]];
        NoByteInConcat(init[r + 1..], [s[|s| - 1]], c);
        r
  }

  /** No "<" comes before a ">" in `s`. */
  predicate NoAnglePair(s: Bytes) {
    forall i, j :: 0 <= i < j < |s| && s[i] == '<' ==> s[j] != '>'
  }

  const Open: Bytes := "<"
  const Close: Bytes := ">"
  const LineBreak: Bytes := "\n"

  /** Where the two groups of the pattern sit in a line: the "<" that ends
      the first and the ">" that ends the second. */
  datatype Span = Span(lt: nat, gt: nat)

  /** The pattern on one line (`.` does not match "\n"): the greedy first
      group runs up to the last "<" that some ">" follows, the greedy second
      group up to the last ">". None when no "<" comes before a ">". */
  function AngleSpan(line: Bytes): (r: Option<Span>)
    ensures r.Some? ==>
      && r.value.lt < r.value.gt < |line|
      && line[r.value.lt] == '<' && line[r.value.gt] == '>'
      && '<' !in line[r.value.lt + 1..r.value.gt] && '>' !in line[r.value.gt + 1..]
    ensures r.None? ==> NoAnglePair(line)
  {
    var gt := LastIndexOf(line, '>');
    if gt == |line| then
      assert forall j :: 0 <= j < |line| ==> line[j] != '>' by {
        assert forall j :: 0 <= j < |line| ==> line[j] in line;
      }
      None
    else
      var front := line[..gt];
      var lt := LastIndexOf(front, '<');
      if lt == gt then
        assert forall i :: 0 <= i < gt ==> line[i] != '<' by {
          assert forall i :: 0 <= i < gt ==> line[i] == front[i] && front[i] in front;
        }
        assert forall j :: gt < j < |line| ==> line[j] != '>' by {
          assert forall j :: gt < j < |line| ==> line[j] == line[gt + 1..][j - gt - 1] && line[gt + 1..][j - gt - 1] in line[gt + 1..];
        }
        None
      else
        assert line[lt + 1..gt] == front[lt + 1..];
        Some(Span(lt, gt))
  }

  /** An occurrence of `c` with no other after it is the last one. */
  lemma {:induction false} LastIndexOfAt(s: Bytes, c: Byte, k: nat)
    requires k < |s| && s[k] == c && c !in s[k + 1..]
    ensures LastIndexOf(s, c) == k
    decreases |s|
  {
    if k < |s| - 1 {
      var init := s[..|s| - 1];
      assert s[|s| - 1] == s[k + 1..][|s| - k - 2];
      assert init[k + 1..] == s[k + 1..][..|s| - k - 2];
      LastIndexOfAt(init, c, k);
    }
  }

  /** A line laid out as display text, "<", an address free of "<", ">" and
      a tail free of ">" is matched with exactly that display text and address. */
  lemma AngleSpanOf(display: Bytes, address: Bytes, tail: Bytes)
    requires '<' !in address && '>' !in tail
    ensures AngleSpan(display + Open + address + Close + tail) == Some(Span(|display|, |display| + |address| + 1))
  {
    var line := display + Open + address + Close + tail;
    var gt := |display| + |address| + 1;
    assert line[gt] == '>' && line[gt + 1..] == tail;
    LastIndexOfAt(line, '>', gt);
    var front := line[..gt];
    assert front == display + Open + address;
    assert front[|display|] == '<' && front[|display| + 1..] == address;
    LastIndexOfAt(front, '<', |display|);
  }

  /** The two groups the pattern captures in one line, if it matches there. */
  function LineGroups(line: Bytes): Option<(Bytes, Bytes)> {
    match AngleSpan(line)
    case Some(sp) => Some((line[..sp.lt], line[sp.lt + 1..sp.gt]))
    case None => None
  }

  /** The groups of a line laid out as display text, "<", address, ">" and tail. */
  lemma LineGroupsOf(display: Bytes, address: Bytes, tail: Bytes)
    requires '<' !in address && '>' !in tail
    ensures LineGroups(display + Open + address + Close + tail) == Some((display, address))
  {
    var line := display + Open + address + Close + tail;
    AngleSpanOf(display, address, tail);
    assert line[..|display|] == display;
    assert line[|display| + 1..|display| + |address| + 1] == address;
  }

  /** The two groups of the pattern on a whole value: the first line that
      has a match supplies them, the rest of the value is not looked at. */
  function FirstMatch(lines: seq<Bytes>): Option<(Bytes, Bytes)>
  {
    if lines == [] then None
    else if LineGroups(lines[0]).Some? then LineGroups(lines[0])
    else FirstMatch(lines[1..])
  }

  function HeaderMatch(value: Bytes): Option<(Bytes, Bytes)> {
    FirstMatch(Split(value, '\n'))
  }

  /** The encoded-word that carries `text` in character set `charset`. */
  function EncodedWord(charset: Bytes, text: Bytes): Bytes {
    "=?" + charset + "?B?" + Base64.Encode(text) + "?="
  }

  /** `_encodeHeader` on one string. */
  function EncodeValue(charset: Bytes, value: Bytes): Bytes {
    match HeaderMatch(value)
    case Some((display, address)) => EncodedWord(charset, display) + " <" + address + ">"
    case None => value
  }

  const ListSeparator: Bytes := ", "

  /** Each value of a list encoded on its own. */
  function EncodeEach(charset: Bytes, values: seq<Bytes>): seq<Bytes> {
    seq(|values|, i requires 0 <= i < |values| => EncodeValue(charset, values[i]))
  }

  /** `_encodeHeader` on a list: each element encoded, joined with ", ". */
  function EncodeList(charset: Bytes, values: seq<Bytes>): Bytes {
    Join(EncodeEach(charset, values), ListSeparator)
  }

  /** A line of display text, address and tail holds no line break when its pieces hold none. */
  lemma OneLine(display: Bytes, address: Bytes, tail: Bytes)
    requires '\n' !in display && '\n' !in address && '\n' !in tail
    ensures '\n' !in display + Open + address + Close + tail
  {
    NoByteInConcat(display, Open, '\n');
    NoByteInConcat(display + Open, address, '\n');
    NoByteInConcat(display + Open + address, Close, '\n');
    NoByteInConcat(display + Open + address + Close, tail, '\n');
  }

  /** The first line of a value decides when it matches. */
  lemma FirstLineMatch(line: Bytes, later: Option<Bytes>)
    requires '\n' !in line && LineGroups(line).Some?
    ensures HeaderMatch(match later case Some(t) => line + LineBreak + t case None => line) == LineGroups(line)
  {
    match later
    case None =>
      IndexOfAbsent(line, '\n');
    case Some(t) =>
      IndexOfAfter(line, '\n', t);
      var value := line + LineBreak + t;
      assert value[..|line|] == line;
  }

  /** A one-line value "display <address>" keeps the address as it is and
      carries the display text, trailing space included, in the encoded-word,
      from which it decodes back unchanged. */
  lemma NamedAddress(charset: Bytes, display: Bytes, address: Bytes)
    requires '\n' !in display && '\n' !in address && '<' !in address
    ensures EncodeValue(charset, display + Open + address + Close) == EncodedWord(charset, display) + " <" + address + ">"
    ensures Base64.Decode(Base64.Encode(display)) == Some(display)
  {
    var value := display + Open + address + Close;
    assert value + [] == value;
    LineGroupsOf(display, address, []);
    OneLine(display, address, []);
    FirstLineMatch(value, None);
    Base64.DecodeEncode(display);
  }

  /** Text after the ">" is dropped, and so is everything on later lines. */
  lemma TailDropped(charset: Bytes, display: Bytes, address: Bytes, tail: Bytes, later: Bytes)
    requires '\n' !in display && '\n' !in address && '\n' !in tail
    requires '<' !in address && '>' !in tail
    ensures EncodeValue(charset, display + Open + address + Close + tail + LineBreak + later)
         == EncodedWord(charset, display) + " <" + address + ">"
  {
    var line := display + Open + address + Close + tail;
    LineGroupsOf(display, address, tail);
    OneLine(display, address, tail);
    FirstLineMatch(line, Some(later));
  }

  /** A part of a text without a "<" before a ">" has none either. */
  lemma NoAnglePairSlice(s: Bytes, lo: nat, hi: nat)
    requires NoAnglePair(s) && lo <= hi <= |s|
    ensures NoAnglePair(s[lo..hi])
  {
    var t := s[lo..hi];
    forall i, j | 0 <= i < j < |t| && t[i] == '<'
      ensures t[j] != '>'
    {
      assert s[lo + i] == t[i] && s[lo + j] == t[j];
    }
  }

  /** A value in which no "<" comes before a ">", such as a bare address,
      is kept as it is. */
  lemma NoMatchUnchanged(charset: Bytes, value: Bytes)
    requires NoAnglePair(value)
    ensures EncodeValue(charset, value) == value
  {
    NoMatchInLines(value);
  }

  lemma {:induction false} NoMatchInLines(value: Bytes)
    requires NoAnglePair(value)
    ensures FirstMatch(Split(value, '\n')) == None
    decreases |value|
  {
    var k := IndexOf(value, '\n');
    NoAnglePairSlice(value, 0, k);
    assert value[0..k] == value[..k];
    assert LineGroups(value[..k]).None?;
    if k < |value| {
      NoAnglePairSlice(value, k + 1, |value|);
      assert value[k + 1..|value|] == value[k + 1..];
      NoMatchInLines(value[k + 1..]);
    }
  }

  /** A list of one value is encoded as that value alone. */
  lemma EncodeListSingle(charset: Bytes, value: Bytes)
    ensures EncodeList(charset, [value]) == EncodeValue(charset, value)
  {
  }

  /** The first value of a longer list is encoded in front of the rest,
      separated by ", ". */
  lemma EncodeListCons(charset: Bytes, value: Bytes, rest: seq<Bytes>)
    requires rest != []
    ensures EncodeList(charset, [value] + rest) == EncodeValue(charset, value) + ListSeparator + EncodeList(charset, rest)
  {
    var values := [value] + rest;
    var all := EncodeEach(charset, values);
    var first := EncodeValue(charset, value);
    var tail := EncodeEach(charset, rest);
    assert all == [first] + tail by {
      forall i | 0 <= i < |all| ensures all[i] == ([first] + tail)[i] {
        if i > 0 {
          assert values[i] == rest[i - 1];
        }
      }
    }
    JoinCons(first, tail, ListSeparator);
  }

  /** A list of bare addresses is joined with ", " and otherwise kept as it is. */
  lemma PlainListJoined(charset: Bytes, values: seq<Bytes>)
    requires forall i :: 0 <= i < |values| ==> NoAnglePair(values[i])
    ensures EncodeList(charset, values) == Join(values, ListSeparator)
  {
    forall i | 0 <= i < |values| ensures EncodeEach(charset, values)[i] == values[i] {
      NoMatchUnchanged(charset, values[i]);
    }
    assert EncodeEach(charset, values) == values;
  }
}
