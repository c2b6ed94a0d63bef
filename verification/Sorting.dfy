/** Sorting by a byte-string key, and the ascending enumeration of a map that a BTreeMap gives.
    Everything the server hashes is put in order by one of these two. */
module Sorting {
  import opened ByteStrings

  ghost predicate SortedOn<T>(key: T -> Bytes, s: seq<T>) {
    forall i, j :: 0 <= i < j < |s| ==> LexLe(key(s[i]), key(s[j]))
  }

  ghost predicate KeyInjectiveOn<T(!new)>(key: T -> Bytes, s: seq<T>) {
    forall x, y :: x in s && y in s && key(x) == key(y) ==> x == y
  }

  function Insert<T>(key: T -> Bytes, x: T, s: seq<T>): (r: seq<T>)
    ensures multiset(r) == multiset(s) + multiset{x}
  {
    if s == [] then [x]
    else if LexLe(key(x), key(s[0])) then [x] + s
    else
      assert s == [s[0]] + s[1..];
      [s[0]] + Insert(key, x, s[1..])
  }

  function SortOn<T>(key: T -> Bytes, s: seq<T>): (r: seq<T>)
    ensures multiset(r) == multiset(s)
  {
    if s == [] then []
    else
      assert s == [s[0]] + s[1..];
      Insert(key, s[0], SortOn(key, s[1..]))
  }

  lemma SameElements<T(!new)>(s: seq<T>, t: seq<T>)
    requires multiset(s) == multiset(t)
    ensures |s| == |t|
    ensures forall x :: x in s <==> x in t
  {
    assert |multiset(s)| == |s| && |multiset(t)| == |t|;
    forall x ensures x in s <==> x in t {
      assert x in s <==> x in multiset(s);
      assert x in t <==> x in multiset(t);
    }
  }

  lemma {:induction false} InsertElements<T(!new)>(key: T -> Bytes, x: T, s: seq<T>)
    ensures forall y :: y in Insert(key, x, s) <==> y == x || y in s
  {
    if s != [] && !LexLe(key(x), key(s[0])) {
      InsertElements(key, x, s[1..]);
      assert s == [s[0]] + s[1..];
    }
  }

  lemma ConsSorted<T(!new)>(key: T -> Bytes, x: T, s: seq<T>)
    requires SortedOn(key, s) && forall y :: y in s ==> LexLe(key(x), key(y))
    ensures SortedOn(key, [x] + s)
  {
  }

  lemma {:induction false} InsertSorted<T(!new)>(key: T -> Bytes, x: T, s: seq<T>)
    requires SortedOn(key, s)
    ensures SortedOn(key, Insert(key, x, s))
  {
    if s == [] {
    } else {
      if LexLe(key(x), key(s[0])) {
        forall y | y in s ensures LexLe(key(x), key(y)) {
          LexTotal(key(x), key(x));
          var j :| 0 <= j < |s| && s[j] == y;
          if j > 0 { LexTransitive(key(x), key(s[0]), key(y)); }
        }
        ConsSorted(key, x, s);
      } else {
        LexTotal(key(x), key(s[0]));
        InsertSorted(key, x, s[1..]);
        InsertElements(key, x, s[1..]);
        ConsSorted(key, s[0], Insert(key, x, s[1..]));
      }
    }
  }

  lemma {:induction false} SortOnSorted<T(!new)>(key: T -> Bytes, s: seq<T>)
    ensures SortedOn(key, SortOn(key, s))
  {
    if s == [] {
    } else {
      SortOnSorted(key, s[1..]);
      InsertSorted(key, s[0], SortOn(key, s[1..]));
    }
  }

  lemma TailMultiset<T(!new)>(s: seq<T>)
    requires s != []
    ensures multiset(s[1..]) == multiset(s) - multiset{s[0]}
  {
    assert s == [s[0]] + s[1..];
  }

  lemma CutOut<T>(s: seq<T>, i: nat)
    requires i < |s|
    ensures s == s[..i] + ([s[i]] + s[i + 1..])
  {
  }

  lemma AroundMultiset<T>(a: seq<T>, x: T, b: seq<T>)
    ensures multiset(a + b) == multiset(a + ([x] + b)) - multiset{x}
  {
    assert multiset([x] + b) == multiset{x} + multiset(b);
  }

  lemma SameLeast<T(!new)>(key: T -> Bytes, s: seq<T>, t: seq<T>)
    requires SortedOn(key, s) && SortedOn(key, t) && KeyInjectiveOn(key, s)
    requires s != [] && t != [] && s[0] in t && t[0] in s
    ensures s[0] == t[0]
  {
    var i :| 0 <= i < |t| && t[i] == s[0];
    var j :| 0 <= j < |s| && s[j] == t[0];
    if i != 0 && j != 0 {
      LexAntisymmetric(key(s[0]), key(t[0]));
    }
  }

  /** A list has only one ascending arrangement when no two of its elements share a key. */
  lemma {:induction false} SortedUnique<T(!new)>(key: T -> Bytes, s: seq<T>, t: seq<T>)
    requires SortedOn(key, s) && SortedOn(key, t)
    requires multiset(s) == multiset(t) && KeyInjectiveOn(key, s)
    ensures s == t
  {
    SameElements(s, t);
    if s == [] {
    } else {
      SameLeast(key, s, t);
      TailMultiset(s);
      TailMultiset(t);
      SortedUnique(key, s[1..], t[1..]);
    }
  }

  lemma SortOnPermutation<T(!new)>(key: T -> Bytes, s: seq<T>, t: seq<T>)
    requires multiset(s) == multiset(t) && KeyInjectiveOn(key, s)
    ensures SortOn(key, s) == SortOn(key, t)
  {
    SortOnSorted(key, s);
    SortOnSorted(key, t);
    SameElements(s, SortOn(key, s));
    SortedUnique(key, SortOn(key, s), SortOn(key, t));
  }

  // ---------- Lists of byte strings: Vec::sort ----------

  function Self(b: Bytes): Bytes { b }

  function SortBytes(s: seq<Bytes>): (r: seq<Bytes>)
    ensures multiset(r) == multiset(s) && |r| == |s|
  {
    SameElements(SortOn(Self, s), s);
    SortOn(Self, s)
  }

  lemma SortBytesPermutation(s: seq<Bytes>, t: seq<Bytes>)
    ensures SortBytes(s) == SortBytes(t) <==> multiset(s) == multiset(t)
  {
    if multiset(s) == multiset(t) {
      SortOnPermutation(Self, s, t);
    }
  }

  // ---------- Key sets and maps: BTreeMap iteration ----------

  ghost predicate Distinct<T>(s: seq<T>) {
    forall i, j :: 0 <= i < j < |s| ==> s[i] != s[j]
  }

  ghost predicate Enumerates<T(!new)>(s: seq<T>, keys: set<T>) {
    Distinct(s) && forall x :: x in s <==> x in keys
  }

  predicate IsLeast(k: Bytes, keys: set<Bytes>) {
    k in keys && forall x :: x in keys ==> LexLe(k, x)
  }

  lemma LeastWithOneMore(a: Bytes, b: Bytes, keys: set<Bytes>) returns (k: Bytes)
    requires a in keys && IsLeast(b, keys - {a})
    ensures IsLeast(k, keys)
  {
    LexTotal(a, a);
    LexTotal(a, b);
    k := if LexLe(a, b) then a else b;
    forall x | x in keys ensures LexLe(k, x) {
      if k == a && x != a { LexTransitive(a, b, x); }
    }
  }

  lemma {:induction false} LeastExists(keys: set<Bytes>) returns (k: Bytes)
    requires keys != {}
    ensures IsLeast(k, keys)
  {
    var a :| a in keys;
    if keys == {a} {
      LexTotal(a, a);
      k := a;
    } else {
      var b := LeastExists(keys - {a});
      k := LeastWithOneMore(a, b, keys);
    }
  }

  lemma LeastUnique(a: Bytes, b: Bytes, keys: set<Bytes>)
    requires IsLeast(a, keys) && IsLeast(b, keys)
    ensures a == b
  {
    LexAntisymmetric(a, b);
  }

  function Least(keys: set<Bytes>): (k: Bytes)
    requires keys != {}
    ensures IsLeast(k, keys)
  {
    assert exists k :: IsLeast(k, keys) by { var k := LeastExists(keys); }
    assert forall a, b :: IsLeast(a, keys) && IsLeast(b, keys) ==> a == b by {
      forall a, b | IsLeast(a, keys) && IsLeast(b, keys) ensures a == b { LeastUnique(a, b, keys); }
    }
    var k :| IsLeast(k, keys);
    k
  }

  function SortedKeys(keys: set<Bytes>): (s: seq<Bytes>)
    ensures |s| == |keys| && forall x :: x in s ==> x in keys
  {
    if keys == {} then []
    else
      var k := Least(keys);
      [k] + SortedKeys(keys - {k})
  }

  lemma {:induction false} SortedKeysSpec(keys: set<Bytes>)
    ensures Enumerates(SortedKeys(keys), keys) && SortedOn(Self, SortedKeys(keys))
  {
    if keys == {} {
    } else {
      var k := Least(keys);
      SortedKeysSpec(keys - {k});
      LeastFirst(k, SortedKeys(keys - {k}), keys);
    }
  }

  lemma LeastFirst(k: Bytes, rest: seq<Bytes>, keys: set<Bytes>)
    requires IsLeast(k, keys)
    requires Enumerates(rest, keys - {k}) && SortedOn(Self, rest)
    ensures Enumerates([k] + rest, keys) && SortedOn(Self, [k] + rest)
  {
    var s := [k] + rest;
    forall x ensures x in s <==> x in keys {
      assert x in s <==> x == k || x in rest;
    }
    ConsSorted(Self, k, rest);
  }

  lemma {:induction false} DistinctMultiset<T(!new)>(s: seq<T>, t: seq<T>)
    requires Distinct(s) && Distinct(t) && forall x :: x in s <==> x in t
    ensures multiset(s) == multiset(t)
  {
    forall x ensures multiset(s)[x] == multiset(t)[x] {
      DistinctCount(s, x);
      DistinctCount(t, x);
    }
  }

  lemma {:induction false} DistinctCount<T(!new)>(s: seq<T>, x: T)
    requires Distinct(s)
    ensures multiset(s)[x] == if x in s then 1 else 0
  {
    if s == [] {
    } else {
      DistinctCount(s[1..], x);
      assert s == [s[0]] + s[1..];
    }
  }

  /** Whatever order a hash map yields its keys in, their ascending arrangement is the same. */
  lemma AscendingEnumerationUnique(s: seq<Bytes>, keys: set<Bytes>)
    requires Enumerates(s, keys)
    ensures SortBytes(s) == SortedKeys(keys)
  {
    SortedKeysSpec(keys);
    DistinctMultiset(s, SortedKeys(keys));
    SortOnSorted(Self, s);
    SameElements(s, SortBytes(s));
    SortedUnique(Self, SortBytes(s), SortedKeys(keys));
  }

  function EntriesAt<V>(ks: seq<Bytes>, m: map<Bytes, V>): (es: seq<(Bytes, V)>)
    requires forall k :: k in ks ==> k in m
    ensures |es| == |ks|
  {
    seq(|ks|, i requires 0 <= i < |ks| => (ks[i], m[ks[i]]))
  }

  /** The entries of a BTreeMap in iteration order. */
  function SortedEntries<V>(m: map<Bytes, V>): (es: seq<(Bytes, V)>)
    ensures |es| == |m|
  {
    assert |m.Keys| == |m|;
    EntriesAt(SortedKeys(m.Keys), m)
  }

  lemma SortedEntriesSpec<V>(m: map<Bytes, V>)
    ensures forall i :: 0 <= i < |m| ==> SortedEntries(m)[i].0 in m && m[SortedEntries(m)[i].0] == SortedEntries(m)[i].1
    ensures forall i, j :: 0 <= i < j < |m| ==>
              && SortedEntries(m)[i].0 != SortedEntries(m)[j].0
              && LexLe(SortedEntries(m)[i].0, SortedEntries(m)[j].0)
  {
    var ks, es := SortedKeys(m.Keys), SortedEntries(m);
    SortedKeysSpec(m.Keys);
    assert forall i :: 0 <= i < |m| ==> es[i].0 == ks[i] && ks[i] in m.Keys;
  }

  /** Every key of the map has its position in the sorted entries. */
  lemma SortedEntryAt<V>(m: map<Bytes, V>, k: Bytes) returns (i: nat)
    requires k in m
    ensures i < |m| && SortedEntries(m)[i] == (k, m[k])
  {
    var ks := SortedKeys(m.Keys);
    SortedKeysSpec(m.Keys);
    assert k in ks;
    i :| i < |ks| && ks[i] == k;
  }

  lemma SortedEntriesKeys<V, W>(m: map<Bytes, V>, n: map<Bytes, W>)
    requires m.Keys == n.Keys
    ensures |m| == |n|
    ensures forall i :: 0 <= i < |m| ==> SortedEntries(m)[i].0 == SortedEntries(n)[i].0
  {
    assert |m.Keys| == |m| && |n.Keys| == |n|;
  }

  /** Key sets with the same ascending arrangement are equal. */
  lemma SortedEntriesSameKeys<V, W>(m: map<Bytes, V>, n: map<Bytes, W>)
    requires |m| == |n|
    requires forall i :: 0 <= i < |m| ==> SortedEntries(m)[i].0 == SortedEntries(n)[i].0
    ensures m.Keys == n.Keys
  {
    SortedEntriesSpec(m);
    SortedEntriesSpec(n);
    forall k ensures k in m.Keys <==> k in n.Keys {
      if k in m { var i := SortedEntryAt(m, k); }
      if k in n { var i := SortedEntryAt(n, k); }
    }
  }

  /** The sorted entries determine the map. */
  lemma SortedEntriesInjective<V>(m: map<Bytes, V>, n: map<Bytes, V>)
    requires SortedEntries(m) == SortedEntries(n)
    ensures m == n
  {
    SortedEntriesSameKeys(m, n);
    SortedEntriesSpec(n);
    forall k | k in m ensures m[k] == n[k] {
      var i := SortedEntryAt(m, k);
    }
  }

  /** `m.iter().collect::<BTreeMap<_, _>>()` over a hash map: the entries arrive in an arbitrary
      order and are kept ascending; the outcome does not depend on that order. */
  method CollectSorted<V>(m: map<Bytes, V>) returns (es: seq<(Bytes, V)>)
    ensures es == SortedEntries(m)
  {
    var remaining := m.Keys;
    var ks: seq<Bytes> := [];
    while remaining != {}
      invariant remaining <= m.Keys && Enumerates(ks, m.Keys - remaining) && SortedOn(Self, ks)
      decreases |remaining|
    {
      var k :| k in remaining;
      var next := Insert(Self, k, ks);
      InsertSorted(Self, k, ks);
      InsertedDistinct(k, ks);
      ks := next;
      remaining := remaining - {k};
    }
    AscendingEnumerationUnique(ks, m.Keys);
    SameElements(ks, SortBytes(ks));
    SortOnSorted(Self, ks);
    SortedUnique(Self, ks, SortBytes(ks));
    es := EntriesAt(ks, m);
  }

  lemma InsertedDistinct(k: Bytes, ks: seq<Bytes>)
    requires Distinct(ks) && k !in ks
    ensures Distinct(Insert(Self, k, ks))
    ensures forall x :: x in Insert(Self, k, ks) <==> x == k || x in ks
  {
    var r := Insert(Self, k, ks);
    assert multiset([k] + ks) == multiset(r);
    SameElements(r, [k] + ks);
    forall x ensures multiset(r)[x] <= 1 { DistinctCount([k] + ks, x); }
    DistinctFromCount(r);
  }

  lemma {:induction false} DistinctFromCount<T(!new)>(s: seq<T>)
    requires forall x :: multiset(s)[x] <= 1
    ensures Distinct(s)
  {
    if s == [] {
    } else {
      TailMultiset(s);
      DistinctFromCount(s[1..]);
      assert s[0] !in multiset(s[1..]);
    }
  }
}
