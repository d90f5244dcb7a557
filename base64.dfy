/**
 * PHP's `base64_encode` (the encoding of section 4 of RFC 4648, with
 * padding), its inverse, and `chunk_split`, which wraps encoded text into
 * lines as section 6.8 of RFC 2045 asks for MIME bodies.
 */
module Base64 {
  import opened Text

  /** The symbol for a 6-bit group, from the alphabet of RFC 4648 section 4. */
  function Symbol(i: nat): (c: Byte)
    requires i < 64
    ensures c != Pad && c != '\n'
  {
    if i < 26 then (0x41 + i) as char
    else if i < 52 then (0x61 + i - 26) as char
    else if i < 62 then (0x30 + i - 52) as char
    else if i == 62 then '+'
    else '/'
  }

  /** The 6-bit group a symbol stands for; None for bytes outside the alphabet. */
  function SymbolValue(c: Byte): (r: Option<nat>)
    ensures r.Some? ==> r.value < 64
  {
    if 'A' <= c <= 'Z' then Some(c as int - 0x41)
    else if 'a' <= c <= 'z' then Some(c as int - 0x61 + 26)
    else if '0' <= c <= '9' then Some(c as int - 0x30 + 52)
    else if c == '+' then Some(62)
    else if c == '/' then Some(63)
    else None
  }

  lemma SymbolValueOfSymbol(i: nat)
    requires i < 64
    ensures SymbolValue(Symbol(i)) == Some(i)
  {
  }

  const Pad: Byte := '='

  /** `base64_encode`: every 3 input bytes become 4 symbols; a final group of
      1 or 2 bytes is padded with "=" to 4 symbols. */
  function Encode(s: Bytes): (r: Bytes)
    ensures |r| == (|s| + 2) / 3 * 4
    ensures '\n' !in r
    decreases |s|
  {
    if s == [] then []
    else
      var b0 := s[0] as int;
      if |s| == 1 then
        [Symbol(b0 / 4), Symbol(b0 % 4 * 16), Pad, Pad]
      else
        var b1 := s[1] as int;
        if |s| == 2 then
          [Symbol(b0 / 4), Symbol(b0 % 4 * 16 + b1 / 16), Symbol(b1 % 16 * 4), Pad]
        else
          var b2 := s[2] as int;
          var group := [Symbol(b0 / 4), Symbol(b0 % 4 * 16 + b1 / 16), Symbol(b1 % 16 * 4 + b2 / 64), Symbol(b2 % 64)];
          var rest := Encode(s[3..]);
          assert (|s| + 2) / 3 == (|s[3..]| + 2) / 3 + 1;
          NoByteInConcat(group, rest, '\n');
          group + rest
  }

  /* The three bytes a group of four 6-bit values carries. */
  function First(c0: nat, c1: nat): Byte
    requires c0 < 64 && c1 < 64
  {
    (c0 * 4 + c1 / 16) as char
  }

  function Second(c1: nat, c2: nat): Byte
    requires c1 < 64 && c2 < 64
  {
    (c1 % 16 * 16 + c2 / 4) as char
  }

  function Third(c2: nat, c3: nat): Byte
    requires c2 < 64 && c3 < 64
  {
    (c2 % 4 * 64 + c3) as char
  }

  /** Decoding of padded base64 text; None when the text is not well formed. */
  function Decode(t: Bytes): Option<Bytes>
    decreases |t|
  {
    if t == [] then Some([])
    else if |t| < 4 then None
    else
      var v0, v1, v2, v3 := SymbolValue(t[0]), SymbolValue(t[1]), SymbolValue(t[2]), SymbolValue(t[3]);
      if |t| == 4 && t[2] == Pad && t[3] == Pad then
        if v0.Some? && v1.Some? then Some([First(v0.value, v1.value)]) else None
      else if |t| == 4 && t[3] == Pad then
        if v0.Some? && v1.Some? && v2.Some?
        then Some([First(v0.value, v1.value), Second(v1.value, v2.value)])
        else None
      else if v0.Some? && v1.Some? && v2.Some? && v3.Some? then
        match Decode(t[4..])
        case Some(rest) =>
          Some([First(v0.value, v1.value), Second(v1.value, v2.value), Third(v2.value, v3.value)] + rest)
        case None => None
      else None
  }

  /** The 6-bit groups of three bytes put back together give the bytes. */
  lemma Regroup(b0: int, b1: int, b2: int)
    requires 0 <= b0 < 256 && 0 <= b1 < 256 && 0 <= b2 < 256
    ensures b0 / 4 * 4 + (b0 % 4 * 16 + b1 / 16) / 16 == b0
    ensures (b0 % 4 * 16 + b1 / 16) % 16 * 16 + (b1 % 16 * 4 + b2 / 64) / 4 == b1
    ensures (b1 % 16 * 4 + b2 / 64) % 4 * 64 + b2 % 64 == b2
  {
  }

  lemma DecodeLastOne(s: Bytes)
    requires |s| == 1
    ensures Decode(Encode(s)) == Some(s)
  {
    var b0 := s[0] as int;
    var c0, c1 := b0 / 4, b0 % 4 * 16;
    SymbolValueOfSymbol(c0);
    SymbolValueOfSymbol(c1);
    Regroup(b0, 0, 0);
    assert First(c0, c1) == s[0];
    assert s == [s[0]];
  }

  lemma DecodeLastTwo(s: Bytes)
    requires |s| == 2
    ensures Decode(Encode(s)) == Some(s)
  {
    var b0, b1 := s[0] as int, s[1] as int;
    var c0, c1, c2 := b0 / 4, b0 % 4 * 16 + b1 / 16, b1 % 16 * 4;
    SymbolValueOfSymbol(c0);
    SymbolValueOfSymbol(c1);
    SymbolValueOfSymbol(c2);
    Regroup(b0, b1, 0);
    assert First(c0, c1) == s[0];
    assert Second(c1, c2) == s[1];
    assert s == [s[0], s[1]];
  }

  /** Four symbols decode to three bytes in front of whatever the rest decodes to. */
  lemma DecodeGroup(c0: nat, c1: nat, c2: nat, c3: nat, rest: Bytes)
    requires c0 < 64 && c1 < 64 && c2 < 64 && c3 < 64
    ensures Decode([Symbol(c0), Symbol(c1), Symbol(c2), Symbol(c3)] + rest) ==
      match Decode(rest)
      case Some(r) => Some([First(c0, c1), Second(c1, c2), Third(c2, c3)] + r)
      case None => None
  {
    var t := [Symbol(c0), Symbol(c1), Symbol(c2), Symbol(c3)] + rest;
    SymbolValueOfSymbol(c0);
    SymbolValueOfSymbol(c1);
    SymbolValueOfSymbol(c2);
    SymbolValueOfSymbol(c3);
    assert t[4..] == rest;
  }

  /** The first four symbols of the encoding of three or more bytes. */
  lemma EncodeGroup(s: Bytes)
    requires |s| >= 3
    ensures var b0, b1, b2 := s[0] as int, s[1] as int, s[2] as int;
      Encode(s) == [Symbol(b0 / 4), Symbol(b0 % 4 * 16 + b1 / 16), Symbol(b1 % 16 * 4 + b2 / 64), Symbol(b2 % 64)]
                   + Encode(s[3..])
  {
  }

  lemma GroupBytes(s: Bytes)
    requires |s| >= 3
    ensures var b0, b1, b2 := s[0] as int, s[1] as int, s[2] as int;
      [First(b0 / 4, b0 % 4 * 16 + b1 / 16), Second(b0 % 4 * 16 + b1 / 16, b1 % 16 * 4 + b2 / 64),
       Third(b1 % 16 * 4 + b2 / 64, b2 % 64)] == s[..3]
  {
    Regroup(s[0] as int, s[1] as int, s[2] as int);
  }

  /** Decoding a full group, once its four 6-bit values are named. */
  lemma DecodeFullGroupOf(s: Bytes, c0: nat, c1: nat, c2: nat, c3: nat)
    requires |s| >= 3 && c0 < 64 && c1 < 64 && c2 < 64 && c3 < 64
    requires Encode(s) == [Symbol(c0), Symbol(c1), Symbol(c2), Symbol(c3)] + Encode(s[3..])
    requires [First(c0, c1), Second(c1, c2), Third(c2, c3)] == s[..3]
    ensures Decode(Encode(s)) ==
      match Decode(Encode(s[3..]))
      case Some(rest) => Some(s[..3] + rest)
      case None => None
  {
    DecodeGroup(c0, c1, c2, c3, Encode(s[3..]));
  }

  /** The four 6-bit values of the first group of three or more bytes: the
      symbols they select start the encoding, and they carry the three bytes. */
  lemma FullGroup(s: Bytes) returns (c0: nat, c1: nat, c2: nat, c3: nat)
    requires |s| >= 3
    ensures c0 < 64 && c1 < 64 && c2 < 64 && c3 < 64
    ensures Encode(s) == [Symbol(c0), Symbol(c1), Symbol(c2), Symbol(c3)] + Encode(s[3..])
    ensures [First(c0, c1), Second(c1, c2), Third(c2, c3)] == s[..3]
  {
    var b0, b1, b2 := s[0] as int, s[1] as int, s[2] as int;
    EncodeGroup(s);
    GroupBytes(s);
    c0, c1, c2, c3 := b0 / 4, b0 % 4 * 16 + b1 / 16, b1 % 16 * 4 + b2 / 64, b2 % 64;
  }

  lemma DecodeFullGroup(s: Bytes)
    requires |s| >= 3
    ensures Decode(Encode(s)) ==
      match Decode(Encode(s[3..]))
      case Some(rest) => Some(s[..3] + rest)
      case None => None
  {
    var c0, c1, c2, c3 := FullGroup(s);
    DecodeFullGroupOf(s, c0, c1, c2, c3);
  }

  /** Decoding recovers exactly the bytes that were encoded. */
  lemma {:induction false} DecodeEncode(s: Bytes)
    ensures Decode(Encode(s)) == Some(s)
    decreases |s|
  {
    if |s| == 1 {
      DecodeLastOne(s);
    } else if |s| == 2 {
      DecodeLastTwo(s);
    } else if |s| >= 3 {
      DecodeEncode(s[3..]);
      DecodeFullGroup(s);
      assert s[..3] + s[3..] == s;
    }
  }

  /* ------------------------------------------------------------------ */
  /* Line wrapping                                                       */
  /* ------------------------------------------------------------------ */

  const LineLength: nat := 76

  /** `chunk_split(s, 76, "\n")`: every 76 bytes, and after the last piece,
      a line break. An empty string becomes a lone "\n". */
  function ChunkSplit(s: Bytes): Bytes
    decreases |s|
  {
    if |s| <= LineLength then s + "\n"
    else s[..LineLength] + "\n" + ChunkSplit(s[LineLength..])
  }

  /** `t` with every line break removed. */
  function Unwrap(t: Bytes): (r: Bytes)
  {
    if t == [] then []
    else (if t[0] == '\n' then [] else [t[0]]) + Unwrap(t[1..])
  }

  lemma {:induction false} UnwrapAppend(a: Bytes, b: Bytes)
    ensures Unwrap(a + b) == Unwrap(a) + Unwrap(b)
  {
    if a == [] {
      assert a + b == b;
    } else {
      assert (a + b)[1..] == a[1..] + b;
      UnwrapAppend(a[1..], b);
    }
  }

  lemma {:induction false} UnwrapNoBreak(s: Bytes)
    requires '\n' !in s
    ensures Unwrap(s) == s
  {
    if s != [] {
      assert s[0] in s;
      UnwrapNoBreak(s[1..]);
      assert [s[0]] + s[1..] == s;
    }
  }

  /** `t` is a series of lines, each at most `width` bytes long and each ended by "\n". */
  predicate WrappedLines(t: Bytes, width: nat)
    decreases |t|
  {
    t == [] || (var i := IndexOf(t, '\n'); i < |t| && i <= width && WrappedLines(t[i + 1..], width))
  }

  /** One line of at most `width` bytes, ended by "\n", in front of wrapped text. */
  lemma PrependLine(line: Bytes, rest: Bytes, width: nat)
    requires '\n' !in line && |line| <= width
    requires WrappedLines(rest, width)
    ensures WrappedLines(line + "\n" + rest, width)
    ensures Unwrap(line + "\n" + rest) == line + Unwrap(rest)
  {
    var t := line + "\n" + rest;
    IndexOfAfter(line, '\n', rest);
    assert t[|line| + 1..] == rest;
    UnwrapLine(line, rest);
  }

  lemma UnwrapLine(line: Bytes, rest: Bytes)
    requires '\n' !in line
    ensures Unwrap(line + "\n" + rest) == line + Unwrap(rest)
  {
    var nl: Bytes := "\n";
    assert Unwrap(nl) == [] by {
      assert nl[0] == '\n' && nl[1..] == [];
    }
    UnwrapAppend(line, nl);
    UnwrapNoBreak(line);
    assert Unwrap(line + nl) == line;
    UnwrapAppend(line + nl, rest);
  }

  /** `chunk_split` output is made of lines of at most 76 bytes, and taking
      the line breaks out gives back the wrapped text. */
  lemma {:induction false} ChunkSplitLines(s: Bytes)
    requires '\n' !in s
    ensures WrappedLines(ChunkSplit(s), LineLength)
    ensures Unwrap(ChunkSplit(s)) == s
    decreases |s|
  {
    if |s| <= LineLength {
      assert WrappedLines([], LineLength);
      PrependLine(s, [], LineLength);
      assert s + "\n" + [] == ChunkSplit(s);
    } else {
      var line, tail := s[..LineLength], s[LineLength..];
      assert line + tail == s;
      assert '\n' !in line && '\n' !in tail by {
        assert forall k :: 0 <= k < |s| ==> s[k] in s;
      }
      ChunkSplitLines(tail);
      PrependLine(line, ChunkSplit(tail), LineLength);
    }
  }

  /** The body of a base64 MIME part: lines of at most 76 symbols, each
      ended by "\n", from which the original bytes are decoded back. */
  lemma WrappedEncodingRoundTrip(data: Bytes)
    ensures WrappedLines(ChunkSplit(Encode(data)), LineLength)
    ensures Decode(Unwrap(ChunkSplit(Encode(data)))) == Some(data)
  {
    ChunkSplitLines(Encode(data));
    DecodeEncode(data);
  }
}
