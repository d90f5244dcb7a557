/**
 * PHP ordered arrays with string keys, as the library builds request
 * parameters and headers: assignment `$a[$k] = $v`, reading `$a[$k]`,
 * numbered member keys and `ksort`.
 */
module PhpArray {
  import opened Text

  datatype Entry = Entry(key: Bytes, value: Bytes)

  /** An ordered array: its entries in insertion order. */
  type Array = seq<Entry>

  predicate UniqueKeys(a: Array) {
    forall i, j :: 0 <= i < j < |a| ==> a[i].key != a[j].key
  }

  predicate HasKey(a: Array, k: Bytes) {
    exists i :: 0 <= i < |a| && a[i].key == k
  }

  /** `$a[$k]`, or None when the key is not set. */
  function Lookup(a: Array, k: Bytes): (r: Option<Bytes>)
    ensures r.Some? <==> HasKey(a, k)
  {
    if a == [] then None
    else if a[0].key == k then Some(a[0].value)
    else
      var r := Lookup(a[1..], k);
      assert HasKey(a, k) <==> HasKey(a[1..], k) by {
        assert forall i :: 1 <= i < |a| ==> a[i] == a[1..][i - 1];
      }
      r
  }

  /** `$a[$k] = $v`: overwrites the value in place when the key is set,
      appends a new entry otherwise. */
  function Put(a: Array, k: Bytes, v: Bytes): (r: Array)
    ensures Lookup(r, k) == Some(v)
    ensures Lookup(a, k) == None ==> r == a + [Entry(k, v)]
  {
    if a == [] then [Entry(k, v)]
    else if a[0].key == k then [Entry(k, v)] + a[1..]
    else
      var rest := Put(a[1..], k, v);
      assert ([a[0]] + rest)[1..] == rest;
      assert a == [a[0]] + a[1..];
      [a[0]] + rest
  }

  /** Assignment leaves every other key as it was. */
  lemma {:induction false} PutOther(a: Array, k: Bytes, v: Bytes, k': Bytes)
    requires k' != k
    ensures Lookup(Put(a, k, v), k') == Lookup(a, k')
  {
    if a != [] && a[0].key != k {
      PutOther(a[1..], k, v, k');
    }
  }

  /** Assignment keeps keys distinct. */
  lemma {:induction false} PutUniqueKeys(a: Array, k: Bytes, v: Bytes)
    requires UniqueKeys(a)
    ensures UniqueKeys(Put(a, k, v))
  {
    var r := Put(a, k, v);
    if a != [] && a[0].key == k {
      assert forall i :: 0 <= i < |r| ==> r[i].key == a[i].key;
    } else if a != [] {
      var tail := a[1..];
      var rest := Put(tail, k, v);
      assert UniqueKeys(tail) by {
        assert forall i :: 0 <= i < |tail| ==> tail[i] == a[i + 1];
      }
      PutUniqueKeys(tail, k, v);
      assert !HasKey(tail, a[0].key) by {
        assert forall i :: 0 <= i < |tail| ==> tail[i] == a[i + 1];
      }
      PutOther(tail, k, v, a[0].key);
      assert !HasKey(rest, a[0].key);
      assert r == [a[0]] + rest;
      forall i, j | 0 <= i < j < |r| ensures r[i].key != r[j].key {
        assert r[j] == rest[j - 1];
        if i > 0 {
          assert r[i] == rest[i - 1];
        }
      }
    }
  }

  /** Reading from two arrays laid end to end: the first one that has the key answers. */
  lemma {:induction false} LookupAppend(a: Array, b: Array, k: Bytes)
    ensures Lookup(a + b, k) == if HasKey(a, k) then Lookup(a, k) else Lookup(b, k)
  {
    if a != [] {
      assert (a + b)[1..] == a[1..] + b;
      LookupAppend(a[1..], b, k);
    } else {
      assert a + b == b;
    }
  }

  lemma LookupUnique(a: Array, i: nat)
    requires UniqueKeys(a) && i < |a|
    ensures Lookup(a, a[i].key) == Some(a[i].value)
    decreases i
  {
    if i > 0 {
      assert a[1..][i - 1] == a[i];
      LookupUnique(a[1..], i - 1);
    }
  }

  /* ------------------------------------------------------------------ */
  /* Numbered member keys                                                */
  /* ------------------------------------------------------------------ */

  /** The key of the `n`-th member of a list parameter: `prefix` followed by `n` in decimal. */
  function MemberKey(prefix: Bytes, n: nat): Bytes {
    prefix + Decimal(n)
  }

  /** Entries `prefix1`, `prefix2`, ... holding `values` in list order. */
  function Members(prefix: Bytes, values: seq<Bytes>): Array {
    seq(|values|, i requires 0 <= i < |values| => Entry(MemberKey(prefix, i + 1), values[i]))
  }

  lemma MemberKeyInjective(prefix: Bytes, m: nat, n: nat)
    ensures MemberKey(prefix, m) == MemberKey(prefix, n) <==> m == n
  {
    if MemberKey(prefix, m) == MemberKey(prefix, n) {
      assert MemberKey(prefix, m)[|prefix|..] == Decimal(m);
      DecimalInjective(m, n);
    }
  }

  /** Member keys are pairwise distinct, and member `n` holds the `n`-th value
      (counting from 1); no other number is a key. */
  lemma MembersLookup(prefix: Bytes, values: seq<Bytes>, n: nat)
    ensures UniqueKeys(Members(prefix, values))
    ensures Lookup(Members(prefix, values), MemberKey(prefix, n)) ==
      if 1 <= n <= |values| then Some(values[n - 1]) else None
  {
    var a := Members(prefix, values);
    forall i, j | 0 <= i < j < |a| ensures a[i].key != a[j].key {
      MemberKeyInjective(prefix, i + 1, j + 1);
    }
    if 1 <= n <= |values| {
      LookupUnique(a, n - 1);
    } else {
      forall i | 0 <= i < |a| ensures a[i].key != MemberKey(prefix, n) {
        MemberKeyInjective(prefix, i + 1, n);
      }
    }
  }

  /** Numbering one more value appends one entry. */
  lemma MembersSnoc(prefix: Bytes, values: seq<Bytes>, v: Bytes)
    ensures Members(prefix, values + [v]) == Members(prefix, values) + [Entry(MemberKey(prefix, |values| + 1), v)]
  {
  }

  /** Assigning the next member number to a numbered list appends it:
      numbering the first `i` values and then assigning member `i + 1`
      numbers the first `i + 1`. */
  lemma PutNextMember(prefix: Bytes, values: seq<Bytes>, i: nat, n: nat)
    requires i < |values| && n == i + 1
    ensures Put(Members(prefix, values[..i]), MemberKey(prefix, n), values[i]) == Members(prefix, values[..i + 1])
  {
    MembersLookup(prefix, values[..i], n);
    MembersSnoc(prefix, values[..i], values[i]);
    assert values[..i + 1] == values[..i] + [values[i]];
  }

  /** Every member key starts with the prefix. */
  lemma MembersKeysStartWith(prefix: Bytes, values: seq<Bytes>)
    ensures forall i :: 0 <= i < |Members(prefix, values)| ==> prefix <= Members(prefix, values)[i].key
  {
  }

  /** A key is set in two arrays laid end to end when it is set in either. */
  lemma HasKeyAppend(a: Array, b: Array, k: Bytes)
    ensures HasKey(a + b, k) <==> HasKey(a, k) || HasKey(b, k)
  {
    if HasKey(a + b, k) {
      var i :| 0 <= i < |a + b| && (a + b)[i].key == k;
      if i >= |a| {
        assert b[i - |a|].key == k;
      }
    }
    if HasKey(a, k) {
      var i :| 0 <= i < |a| && a[i].key == k;
      assert (a + b)[i].key == k;
    }
    if HasKey(b, k) {
      var i :| 0 <= i < |b| && b[i].key == k;
      assert (a + b)[|a| + i].key == k;
    }
  }

  /** No key of `a` starts with `prefix`. */
  predicate KeysAvoid(a: Array, prefix: Bytes) {
    forall i :: 0 <= i < |a| ==> !(prefix <= a[i].key)
  }

  /** An array whose keys avoid a prefix holds none of its member keys. */
  lemma AvoidMisses(a: Array, prefix: Bytes, n: nat)
    requires KeysAvoid(a, prefix)
    ensures !HasKey(a, MemberKey(prefix, n))
  {
    forall i | 0 <= i < |a| ensures a[i].key != MemberKey(prefix, n) {
      assert prefix <= MemberKey(prefix, n);
    }
  }

  /** Member keys under `p` avoid a prefix `q` that differs from `p` at some position. */
  lemma MembersAvoid(p: Bytes, values: seq<Bytes>, q: Bytes, at: nat)
    requires at < |p| && at < |q| && p[at] != q[at]
    ensures KeysAvoid(Members(p, values), q)
  {
    var a := Members(p, values);
    forall i | 0 <= i < |a| ensures !(q <= a[i].key) {
      assert a[i].key[at] == p[at];
    }
  }

  lemma KeysAvoidAppend(a: Array, b: Array, prefix: Bytes)
    requires KeysAvoid(a, prefix) && KeysAvoid(b, prefix)
    ensures KeysAvoid(a + b, prefix)
  {
    assert forall i :: |a| <= i < |a + b| ==> (a + b)[i] == b[i - |a|];
  }

  /** Numbering one more value behind entries whose keys avoid the prefix
      appends its member entry. */
  lemma PutNextMemberAfter(front: Array, prefix: Bytes, values: seq<Bytes>, i: nat)
    requires i < |values| && KeysAvoid(front, prefix)
    ensures Put(front + Members(prefix, values[..i]), MemberKey(prefix, i + 1), values[i])
         == front + Members(prefix, values[..i + 1])
  {
    var k := MemberKey(prefix, i + 1);
    AvoidMisses(front, prefix, i + 1);
    MembersLookup(prefix, values[..i], i + 1);
    HasKeyAppend(front, Members(prefix, values[..i]), k);
    MembersSnoc(prefix, values[..i], values[i]);
    assert values[..i + 1] == values[..i] + [values[i]];
  }

  /** Every key of `a` starts with `prefix`. */
  predicate KeysStart(a: Array, prefix: Bytes) {
    forall i :: 0 <= i < |a| ==> prefix <= a[i].key
  }

  /** No key of `a` is a key of `b`. */
  predicate KeysApart(a: Array, b: Array) {
    forall i, j :: 0 <= i < |a| && 0 <= j < |b| ==> a[i].key != b[j].key
  }

  /** Keys that start with a prefix and keys that do not are apart. */
  lemma ApartByPrefix(a: Array, b: Array, prefix: Bytes)
    requires KeysStart(a, prefix) && KeysAvoid(b, prefix)
    ensures KeysApart(a, b) && KeysApart(b, a)
  {
  }

  /** Keys that start with `p` avoid a prefix `q` that differs from `p` at some position. */
  lemma AvoidAt(a: Array, p: Bytes, q: Bytes, at: nat)
    requires KeysStart(a, p) && at < |p| && at < |q| && p[at] != q[at]
    ensures KeysAvoid(a, q)
  {
    forall i | 0 <= i < |a| ensures !(q <= a[i].key) {
      assert a[i].key[at] == p[at];
    }
  }

  lemma KeysApartAppend(a: Array, b: Array, c: Array)
    requires KeysApart(a, c) && KeysApart(b, c)
    ensures KeysApart(a + b, c)
  {
    assert forall i :: |a| <= i < |a + b| ==> (a + b)[i] == b[i - |a|];
  }

  lemma KeysStartAppend(a: Array, b: Array, prefix: Bytes)
    requires KeysStart(a, prefix) && KeysStart(b, prefix)
    ensures KeysStart(a + b, prefix)
  {
    assert forall i :: |a| <= i < |a + b| ==> (a + b)[i] == b[i - |a|];
  }

  /** Laying two arrays with distinct keys end to end keeps keys distinct
      when no key is in both. */
  /** An entry whose key the array does not hold yet is appended. */
  lemma PutFresh(a: Array, e: Entry)
    requires UniqueKeys(a + [e])
    ensures Put(a, e.key, e.value) == a + [e]
  {
    assert !HasKey(a, e.key) by {
      forall i | 0 <= i < |a| ensures a[i].key != e.key {
        assert (a + [e])[i] == a[i] && (a + [e])[|a|] == e;
      }
    }
  }

  /** Two entries with new, distinct keys are appended in turn. */
  lemma PutPairFresh(a: Array, e1: Entry, e2: Entry)
    requires UniqueKeys(a + [e1, e2])
    ensures Put(Put(a, e1.key, e1.value), e2.key, e2.value) == a + [e1, e2]
  {
    assert a + [e1, e2] == a + [e1] + [e2];
    UniqueKeysPrefix(a + [e1], [e2]);
    PutFresh(a, e1);
    PutFresh(a + [e1], e2);
  }

  lemma UniqueKeysPrefix(a: Array, b: Array)
    requires UniqueKeys(a + b)
    ensures UniqueKeys(a)
  {
    assert forall i :: 0 <= i < |a| ==> (a + b)[i] == a[i];
  }

  lemma UniqueKeysAppend(a: Array, b: Array)
    requires UniqueKeys(a) && UniqueKeys(b) && KeysApart(a, b)
    ensures UniqueKeys(a + b)
  {
    var c := a + b;
    forall i, j | 0 <= i < j < |c| ensures c[i].key != c[j].key {
      if j < |a| {
        assert c[i] == a[i] && c[j] == a[j];
      } else if i >= |a| {
        assert c[i] == b[i - |a|] && c[j] == b[j - |a|];
      } else {
        assert c[i] == a[i] && c[j] == b[j - |a|];
      }
    }
  }

  /** A key that an array avoids by prefix is read from what follows it. */
  lemma LookupPastAvoiding(a: Array, b: Array, prefix: Bytes, k: Bytes)
    requires KeysAvoid(a, prefix) && prefix <= k
    ensures Lookup(a + b, k) == Lookup(b, k)
  {
    LookupAppend(a, b, k);
    assert !HasKey(a, k) by {
      forall i | 0 <= i < |a| ensures a[i].key != k {
        assert !(prefix <= a[i].key);
      }
    }
  }

  /** A key that no key of the following array starts like is read from the front. */
  lemma LookupBeforeStarting(a: Array, b: Array, prefix: Bytes, k: Bytes)
    requires KeysStart(b, prefix) && !(prefix <= k)
    ensures Lookup(a + b, k) == Lookup(a, k)
  {
    LookupAppend(a, b, k);
    if !HasKey(a, k) {
      assert !HasKey(b, k) by {
        forall i | 0 <= i < |b| ensures b[i].key != k {
          assert prefix <= b[i].key;
        }
      }
    }
  }

  /** A key that an array avoids by prefix is read from what comes before it. */
  lemma LookupBeforeAvoiding(a: Array, b: Array, prefix: Bytes, k: Bytes)
    requires KeysAvoid(b, prefix) && prefix <= k
    ensures Lookup(a + b, k) == Lookup(a, k)
  {
    LookupAppend(a, b, k);
    if !HasKey(a, k) {
      assert !HasKey(b, k) by {
        forall i | 0 <= i < |b| ensures b[i].key != k {
          assert !(prefix <= b[i].key);
        }
      }
    }
  }

  /** A key that does not start like the keys of an array is read from what follows it. */
  lemma LookupPastStarting(a: Array, b: Array, prefix: Bytes, k: Bytes)
    requires KeysStart(a, prefix) && !(prefix <= k)
    ensures Lookup(a + b, k) == Lookup(b, k)
  {
    LookupAppend(a, b, k);
    assert !HasKey(a, k) by {
      forall i | 0 <= i < |a| ensures a[i].key != k {
        assert prefix <= a[i].key;
      }
    }
  }

  /** Member keys under `p` start with every prefix of `p`. */
  lemma MembersStart(p: Bytes, values: seq<Bytes>, q: Bytes)
    requires q <= p
    ensures KeysStart(Members(p, values), q)
  {
    var a := Members(p, values);
    forall i | 0 <= i < |a| ensures q <= a[i].key {
      assert a[i].key == p + Decimal(i + 1);
      assert a[i].key[..|q|] == p[..|q|];
    }
  }

  /** What a loop that assigns every value to member 1 leaves: nothing for
      an empty list, member 1 holding the last value otherwise. */
  function LastAtFirstMember(prefix: Bytes, values: seq<Bytes>): Array {
    if values == [] then [] else [Entry(MemberKey(prefix, 1), values[|values| - 1])]
  }

  lemma LastAtFirstMemberKeys(p: Bytes, values: seq<Bytes>, q: Bytes, at: nat)
    requires at < |p| && at < |q| && p[at] != q[at]
    ensures KeysStart(LastAtFirstMember(p, values), p)
    ensures KeysAvoid(LastAtFirstMember(p, values), q)
    ensures UniqueKeys(LastAtFirstMember(p, values))
  {
    if values != [] {
      assert MemberKey(p, 1)[at] == p[at];
    }
  }

  /** The loop that assigns every value to member 1, run over `values`
      starting from `front`. */
  function AssignedToFirst(front: Array, prefix: Bytes, values: seq<Bytes>): Array {
    if values == [] then front else Put(front, MemberKey(prefix, 1), values[|values| - 1])
  }

  /** One more round of that loop. */
  lemma AssignedToFirstNext(front: Array, prefix: Bytes, values: seq<Bytes>, i: nat)
    requires i < |values|
    ensures Put(AssignedToFirst(front, prefix, values[..i]), MemberKey(prefix, 1), values[i])
         == AssignedToFirst(front, prefix, values[..i + 1])
  {
    var k, next := MemberKey(prefix, 1), values[..i + 1];
    assert next != [] && next[|next| - 1] == values[i];
    assert AssignedToFirst(front, prefix, next) == Put(front, k, values[i]);
    if i == 0 {
      assert values[..i] == [];
    } else {
      var done := values[..i];
      assert done != [] && done[|done| - 1] == values[i - 1];
      assert AssignedToFirst(front, prefix, done) == Put(front, k, values[i - 1]);
      PutTwice(front, k, values[i - 1], values[i]);
    }
  }

  /** Behind entries whose keys avoid the prefix, the loop leaves them as
      they are and adds member 1 holding the last value. */
  lemma AssignedToFirstAppends(front: Array, prefix: Bytes, values: seq<Bytes>)
    requires KeysAvoid(front, prefix)
    ensures AssignedToFirst(front, prefix, values) == front + LastAtFirstMember(prefix, values)
  {
    AvoidMisses(front, prefix, 1);
    if values == [] {
      assert front + [] == front;
    }
  }

  /** A second assignment to the same key overwrites the first. */
  lemma {:induction false} PutTwice(a: Array, k: Bytes, v: Bytes, w: Bytes)
    ensures Put(Put(a, k, v), k, w) == Put(a, k, w)
  {
    if a != [] && a[0].key != k {
      PutTwice(a[1..], k, v, w);
    }
  }

  /* ------------------------------------------------------------------ */
  /* ksort                                                               */
  /* ------------------------------------------------------------------ */

  /** Keys strictly ascending in binary order. */
  predicate SortedByKey(a: Array) {
    forall i, j :: 0 <= i < j < |a| ==> Below(a[i].key, a[j].key)
  }

  /** Inserts `e` in front of the first entry whose key it sorts below. */
  function Insert(e: Entry, a: Array): (r: Array)
    ensures multiset(r) == multiset(a) + multiset{e}
  {
    if a == [] || Below(e.key, a[0].key) then [e] + a
    else
      assert a == [a[0]] + a[1..];
      [a[0]] + Insert(e, a[1..])
  }

  /** An entry whose key sorts below every key of a sorted array can be put in front of it. */
  lemma SortedCons(x: Entry, rest: Array)
    requires SortedByKey(rest)
    requires forall j :: 0 <= j < |rest| ==> Below(x.key, rest[j].key)
    ensures SortedByKey([x] + rest)
  {
    var r := [x] + rest;
    forall i, j | 0 <= i < j < |r| ensures Below(r[i].key, r[j].key) {
      assert r[j] == rest[j - 1];
      if i > 0 {
        assert r[i] == rest[i - 1];
      }
    }
  }

  /** Inserting an entry with a new key into a sorted array keeps it sorted. */
  lemma {:induction false} InsertSorted(e: Entry, a: Array)
    requires SortedByKey(a)
    requires forall i :: 0 <= i < |a| ==> a[i].key != e.key
    ensures SortedByKey(Insert(e, a))
    decreases |a|
  {
    if a == [] || Below(e.key, a[0].key) {
      forall j | 0 <= j < |a| ensures Below(e.key, a[j].key) {
        if j > 0 {
          BelowTransitive(e.key, a[0].key, a[j].key);
        }
      }
      SortedCons(e, a);
    } else {
      var rest := Insert(e, a[1..]);
      InsertSorted(e, a[1..]);
      BelowTotal(e.key, a[0].key);
      forall j | 0 <= j < |rest| ensures Below(a[0].key, rest[j].key) {
        assert rest[j] in multiset(rest);
        if rest[j] != e {
          assert rest[j] in multiset(a[1..]);
          var k :| 0 <= k < |a[1..]| && a[1..][k] == rest[j];
          assert a[k + 1] == rest[j];
        }
      }
      SortedCons(a[0], rest);
    }
  }

  /** `ksort`: the same entries, in ascending binary order of their keys. */
  function KSort(a: Array): (r: Array)
    ensures multiset(r) == multiset(a)
    ensures UniqueKeys(a) ==> SortedByKey(r)
  {
    if a == [] then []
    else
      var rest := KSort(a[1..]);
      assert a == [a[0]] + a[1..];
      if UniqueKeys(a) then
        forall i | 0 <= i < |rest| ensures rest[i].key != a[0].key {
          assert rest[i] in multiset(a[1..]);
        }
        InsertSorted(a[0], rest);
        Insert(a[0], rest)
      else
        Insert(a[0], rest)
  }

  /** Strictly sorted keys are distinct keys. */
  lemma SortedUnique(a: Array)
    requires SortedByKey(a)
    ensures UniqueKeys(a)
  {
    forall i, j | 0 <= i < j < |a| ensures a[i].key != a[j].key {
      BelowIrreflexive(a[i].key);
    }
  }

  lemma {:induction false} LookupInsert(e: Entry, a: Array, k: Bytes)
    requires !HasKey(a, e.key)
    ensures Lookup(Insert(e, a), k) == if k == e.key then Some(e.value) else Lookup(a, k)
    decreases |a|
  {
    if a != [] && !Below(e.key, a[0].key) {
      assert !HasKey(a[1..], e.key) by {
        assert forall i :: 0 <= i < |a[1..]| ==> a[1..][i] == a[i + 1];
      }
      LookupInsert(e, a[1..], k);
    }
  }

  /** `ksort` moves entries but keeps what every key reads. */
  lemma {:induction false} LookupKSort(a: Array, k: Bytes)
    requires UniqueKeys(a)
    ensures Lookup(KSort(a), k) == Lookup(a, k)
    decreases |a|
  {
    if a != [] {
      var rest := KSort(a[1..]);
      LookupKSort(a[1..], k);
      assert !HasKey(rest, a[0].key) by {
        forall i | 0 <= i < |rest| ensures rest[i].key != a[0].key {
          assert rest[i] in multiset(a[1..]);
        }
      }
      LookupInsert(a[0], rest, k);
    }
  }

  /** Two arrays sorted by key in which every key reads the same are the same
      array: sorting leaves no freedom in the order. */
  lemma {:induction false} SortedLookupEqual(a: Array, b: Array)
    requires SortedByKey(a) && SortedByKey(b)
    requires forall k :: Lookup(a, k) == Lookup(b, k)
    ensures a == b
    decreases |a|
  {
    SortedUnique(a);
    SortedUnique(b);
    if a == [] {
      assert |b| > 0 ==> Lookup(b, b[0].key).Some? && Lookup(a, b[0].key) == None;
    } else {
      LookupUnique(a, 0);
      assert b != [] by {
        assert Lookup(b, a[0].key).Some?;
      }
      LookupUnique(b, 0);
      var ia :| 0 <= ia < |a| && a[ia].key == b[0].key;
      var ib :| 0 <= ib < |b| && b[ib].key == a[0].key;
      if ia != 0 && ib != 0 {
        BelowAsymmetric(a[0].key, a[ia].key);
      }
      assert a[0].key == b[0].key;
      assert a[0] == b[0];
      forall k ensures Lookup(a[1..], k) == Lookup(b[1..], k) {
        if k == a[0].key {
          assert !HasKey(a[1..], k) by {
            forall i | 0 <= i < |a[1..]| ensures a[1..][i].key != k {
              assert a[1..][i] == a[i + 1];
            }
          }
          assert !HasKey(b[1..], k) by {
            forall i | 0 <= i < |b[1..]| ensures b[1..][i].key != k {
              assert b[1..][i] == b[i + 1];
            }
          }
        } else {
          assert Lookup(a, k) == Lookup(a[1..], k);
          assert Lookup(b, k) == Lookup(b[1..], k);
        }
      }
      SortedLookupEqual(a[1..], b[1..]);
      assert a == [a[0]] + a[1..] && b == [b[0]] + b[1..];
    }
  }
}
