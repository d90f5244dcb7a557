/**
 * Byte strings as PHP sees them, and the string builtins the library relies
 * on: binary comparison, searching, joining and splitting, decimal and
 * hexadecimal rendering.
 */
module Text {

  /** PHP strings are byte strings. A byte is written as the char with the
      same code, so that string literals denote byte strings directly. */
  type Byte = c: char | c as int < 0x100 witness 'a'
  type Bytes = seq<Byte>

  datatype Option<+T> = None | Some(value: T)

  /** PHP truthiness of a string: every string except "" and "0". */
  predicate Truthy(s: Bytes) {
    s != "" && s != "0"
  }

  /** PHP truthiness of a string that may be null (`empty()` is its negation). */
  predicate TruthyOrNull(v: Option<Bytes>) {
    v.Some? && Truthy(v.value)
  }

  /* ------------------------------------------------------------------ */
  /* Binary comparison                                                   */
  /* ------------------------------------------------------------------ */

  /** Binary string order, as PHP compares two non-numeric string keys:
      the first differing byte decides, and a proper prefix sorts first. */
  predicate Below(a: Bytes, b: Bytes)
    decreases |a|
  {
    if a == [] then b != []
    else if b == [] then false
    else a[0] < b[0] || (a[0] == b[0] && Below(a[1..], b[1..]))
  }

  lemma BelowIrreflexive(a: Bytes)
    ensures !Below(a, a)
    decreases |a|
  {
    if a != [] {
      BelowIrreflexive(a[1..]);
    }
  }

  lemma BelowTransitive(a: Bytes, b: Bytes, c: Bytes)
    requires Below(a, b) && Below(b, c)
    ensures Below(a, c)
    decreases |a|
  {
    if a != [] && a[0] == b[0] && b[0] == c[0] {
      BelowTransitive(a[1..], b[1..], c[1..]);
    }
  }

  lemma BelowTotal(a: Bytes, b: Bytes)
    ensures a == b || Below(a, b) || Below(b, a)
    decreases |a|
  {
    if a != [] && b != [] && a[0] == b[0] {
      BelowTotal(a[1..], b[1..]);
      if a[1..] == b[1..] {
        assert a == [a[0]] + a[1..] && b == [b[0]] + b[1..];
      }
    }
  }

  lemma BelowAsymmetric(a: Bytes, b: Bytes)
    requires Below(a, b)
    ensures !Below(b, a)
    decreases |a|
  {
    if a != [] && a[0] == b[0] {
      BelowAsymmetric(a[1..], b[1..]);
    }
  }

  /** A common prefix does not change how two strings compare. */
  lemma {:induction false} BelowCommonPrefix(p: Bytes, a: Bytes, b: Bytes)
    ensures Below(p + a, p + b) <==> Below(a, b)
    decreases |p|
  {
    if p != [] {
      assert (p + a)[1..] == p[1..] + a && (p + b)[1..] == p[1..] + b;
      BelowCommonPrefix(p[1..], a, b);
    } else {
      assert p + a == a && p + b == b;
    }
  }

  /* ------------------------------------------------------------------ */
  /* Searching, joining, splitting                                       */
  /* ------------------------------------------------------------------ */

  /** Position of the first occurrence of `c` in `s`, or `|s|` when there is none. */
  function IndexOf(s: Bytes, c: Byte): (r: nat)
    ensures r <= |s|
    ensures c !in s[..r]
    ensures r < |s| ==> s[r] == c
  {
    if s == [] || s[0] == c then 0
    else
      var r := 1 + IndexOf(s[1..], c);
      assert s[..r] == [s[0]] + s[1..][..r - 1];
      r
  }

  /** The first occurrence of `c` is determined by a prefix free of `c`. */
  lemma IndexOfAfter(a: Bytes, c: Byte, b: Bytes)
    requires c !in a
    ensures IndexOf(a + [c] + b, c) == |a|
  {
    var s := a + [c] + b;
    assert s[|a|] == c;
    assert forall i :: 0 <= i < |a| ==> s[i] == a[i];
    assert forall k :: |a| < k <= |s| ==> s[..k][|a|] == c;
  }

  lemma IndexOfAbsent(a: Bytes, c: Byte)
    requires c !in a
    ensures IndexOf(a, c) == |a|
  {
    assert forall k :: 0 <= k < |a| ==> a[k] in a;
  }

  /** A byte missing from two strings is missing from their concatenation. */
  lemma NoByteInConcat(a: Bytes, b: Bytes, c: Byte)
    requires c !in a && c !in b
    ensures c !in a + b
  {
    assert forall k :: 0 <= k < |a + b| ==> (a + b)[k] == if k < |a| then a[k] else b[k - |a|];
  }

  /** The two ends of a concatenation. */
  lemma Ends(a: Bytes, b: Bytes)
    ensures a <= a + b
    ensures |b| <= |a + b| && (a + b)[..|a + b| - |b|] == a && (a + b)[|a + b| - |b|..] == b
  {
  }

  lemma Associative(a: Bytes, b: Bytes, c: Bytes)
    ensures a + (b + c) == a + b + c
  {
  }

  lemma Middle(a: Bytes, b: Bytes, c: Bytes)
    ensures (a + b + c)[|a|..|a| + |b|] == b
  {
  }

  /** Appending pieces one by one appends their concatenation. */
  lemma Grouped3(x: Bytes, a: Bytes, b: Bytes, c: Bytes)
    ensures x + a + b + c == x + (a + b + c)
  {
    Associative(x, a + b, c);
    Associative(x, a, b);
  }

  lemma Grouped4(x: Bytes, a: Bytes, b: Bytes, c: Bytes, d: Bytes)
    ensures x + a + b + c + d == x + (a + b + c + d)
  {
    Associative(x, a + b + c, d);
    Grouped3(x, a, b, c);
  }

  lemma Grouped5(x: Bytes, a: Bytes, b: Bytes, c: Bytes, d: Bytes, e: Bytes)
    ensures x + a + b + c + d + e == x + (a + b + c + d + e)
  {
    Associative(x, a + b + c + d, e);
    Grouped4(x, a, b, c, d);
  }

  lemma PrefixExtended(a: Bytes, b: Bytes, c: Bytes)
    requires a <= b
    ensures a <= b + c
  {
  }

  /** Concatenation of `parts` with `sep` between neighbours (PHP's `join`). */
  function Join(parts: seq<Bytes>, sep: Bytes): Bytes
  {
    if |parts| == 0 then []
    else if |parts| == 1 then parts[0]
    else parts[0] + sep + Join(parts[1..], sep)
  }

  lemma JoinCons(p: Bytes, rest: seq<Bytes>, sep: Bytes)
    requires rest != []
    ensures Join([p] + rest, sep) == p + sep + Join(rest, sep)
  {
    assert ([p] + rest)[1..] == rest;
  }

  /** The pieces of `s` between occurrences of `c` (PHP's `explode`). */
  function Split(s: Bytes, c: Byte): (r: seq<Bytes>)
    ensures |r| >= 1
    decreases |s|
  {
    var i := IndexOf(s, c);
    if i == |s| then [s] else [s[..i]] + Split(s[i + 1..], c)
  }

  /** Splitting a joined list peels off its first part. */
  lemma SplitJoinCons(p: Bytes, rest: seq<Bytes>, c: Byte)
    requires c !in p && rest != []
    ensures Split(Join([p] + rest, [c]), c) == [p] + Split(Join(rest, [c]), c)
  {
    JoinCons(p, rest, [c]);
    var tail := Join(rest, [c]);
    var s := p + [c] + tail;
    IndexOfAfter(p, c, tail);
    assert s[..|p|] == p;
    assert s[|p| + 1..] == tail;
  }

  /** Splitting undoes joining when no part contains the separator. */
  lemma {:induction false} SplitJoin(parts: seq<Bytes>, c: Byte)
    requires |parts| >= 1
    requires forall i :: 0 <= i < |parts| ==> c !in parts[i]
    ensures Split(Join(parts, [c]), c) == parts
    decreases |parts|
  {
    if |parts| == 1 {
      IndexOfAbsent(parts[0], c);
    } else {
      var rest := Join(parts[1..], [c]);
      var s := parts[0] + [c] + rest;
      IndexOfAfter(parts[0], c, rest);
      assert s[..|parts[0]|] == parts[0];
      assert s[|parts[0]| + 1..] == rest;
      SplitJoin(parts[1..], c);
      assert [parts[0]] + parts[1..] == parts;
    }
  }

  /** Concatenation of a list of strings. */
  function Concat(parts: seq<Bytes>): Bytes
  {
    if parts == [] then [] else Concat(parts[..|parts| - 1]) + parts[|parts| - 1]
  }

  lemma ConcatSingle(p: Bytes)
    ensures Concat([p]) == p
  {
    assert [p][..0] == [];
  }

  lemma {:induction false} ConcatAppend(a: seq<Bytes>, b: seq<Bytes>)
    ensures Concat(a + b) == Concat(a) + Concat(b)
    decreases |b|
  {
    if b == [] {
      assert a + b == a;
    } else {
      var init, last := b[..|b| - 1], b[|b| - 1];
      assert (a + b)[..|a + b| - 1] == a + init;
      assert (a + b)[|a + b| - 1] == last;
      ConcatAppend(a, init);
      assert Concat(a + b) == Concat(a) + Concat(init) + last;
      assert Concat(b) == Concat(init) + last;
    }
  }

  /* ------------------------------------------------------------------ */
  /* Decimal rendering of integers (PHP's int-to-string conversion)      */
  /* ------------------------------------------------------------------ */

  predicate IsDigit(c: Byte) {
    '0' <= c <= '9'
  }

  function Digit(d: nat): (c: Byte)
    requires d < 10
    ensures IsDigit(c)
  {
    (0x30 + d) as char
  }

  /** The decimal text of `n`, without leading zeros. */
  function Decimal(n: nat): (r: Bytes)
    ensures |r| >= 1
    ensures forall i :: 0 <= i < |r| ==> IsDigit(r[i])
    ensures r[0] == '0' ==> n == 0
  {
    if n < 10 then [Digit(n)] else Decimal(n / 10) + [Digit(n % 10)]
  }

  /** The number a string of decimal digits denotes. */
  function DigitsValue(s: Bytes): nat
    requires forall i :: 0 <= i < |s| ==> IsDigit(s[i])
  {
    if s == [] then 0
    else
      assert IsDigit(s[|s| - 1]);
      DigitsValue(s[..|s| - 1]) * 10 + (s[|s| - 1] as int - 0x30)
  }

  lemma {:induction false} DecimalValue(n: nat)
    ensures DigitsValue(Decimal(n)) == n
  {
    if n >= 10 {
      DecimalValue(n / 10);
      var r := Decimal(n);
      assert r[..|r| - 1] == Decimal(n / 10);
    }
  }

  lemma DecimalInjective(m: nat, n: nat)
    ensures Decimal(m) == Decimal(n) <==> m == n
  {
    if Decimal(m) == Decimal(n) {
      DecimalValue(m);
      DecimalValue(n);
    }
  }

  /* ------------------------------------------------------------------ */
  /* Hexadecimal                                                         */
  /* ------------------------------------------------------------------ */

  function HexDigit(d: nat, upper: bool): Byte
    requires d < 16
  {
    if d < 10 then (0x30 + d) as char
    else if upper then (0x41 + d - 10) as char
    else (0x61 + d - 10) as char
  }

  /** The value of a hexadecimal digit of either case. */
  function HexValue(c: Byte): (r: Option<nat>)
    ensures r.Some? ==> r.value < 16
  {
    if '0' <= c <= '9' then Some(c as int - 0x30)
    else if 'A' <= c <= 'F' then Some(c as int - 0x41 + 10)
    else if 'a' <= c <= 'f' then Some(c as int - 0x61 + 10)
    else None
  }

  lemma HexDigitValue(d: nat, upper: bool)
    requires d < 16
    ensures HexValue(HexDigit(d, upper)) == Some(d)
  {
  }

  /** Lower-case hexadecimal text of a byte string, as `hash()` and
      `hash_hmac()` return a digest when raw output is not asked for. */
  function LowerHex(s: Bytes): Bytes
  {
    if s == [] then []
    else [HexDigit(s[0] as int / 16, false), HexDigit(s[0] as int % 16, false)] + LowerHex(s[1..])
  }

  /** Hexadecimal text holds no line break. */
  lemma {:induction false} LowerHexNoLineBreak(s: Bytes)
    ensures '\n' !in LowerHex(s)
  {
    if s != [] {
      LowerHexNoLineBreak(s[1..]);
    }
  }

  /** Reads hexadecimal text back into bytes. */
  function UnHex(t: Bytes): Option<Bytes>
    decreases |t|
  {
    if t == [] then Some([])
    else if |t| < 2 then None
    else match (HexValue(t[0]), HexValue(t[1]), UnHex(t[2..]))
      case (Some(hi), Some(lo), Some(rest)) => Some([(hi * 16 + lo) as char] + rest)
      case _ => None
  }

  /** Hexadecimal rendering loses nothing: a digest is recovered from its hex text. */
  lemma {:induction false} UnHexLowerHex(s: Bytes)
    ensures |LowerHex(s)| == 2 * |s|
    ensures UnHex(LowerHex(s)) == Some(s)
  {
    if s != [] {
      UnHexLowerHex(s[1..]);
      var b := s[0] as int;
      HexDigitValue(b / 16, false);
      HexDigitValue(b % 16, false);
      var t := LowerHex(s);
      assert t[2..] == LowerHex(s[1..]);
      assert [s[0]] + s[1..] == s;
    }
  }
}
