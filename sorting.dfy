// The collection idioms the programs rely on: Python's stable
// `list.sort(key=...)`, the "seen set" pass that keeps the first record of
// each key, and counting by key into a dict.

module Sorting {
  import opened Text

  predicate SortedBy<T>(s: seq<T>, key: T -> int)
  {
    forall i, j | 0 <= i < j < |s| :: key(s[i]) <= key(s[j])
  }

  /** Inserts `x` in front of the first element whose key is not smaller. */
  function InsertBy<T>(x: T, s: seq<T>, key: T -> int): (r: seq<T>)
    requires SortedBy(s, key)
    ensures SortedBy(r, key)
    ensures multiset(r) == multiset(s) + multiset{x}
    ensures |r| == |s| + 1
  {
    if |s| == 0 || key(x) <= key(s[0]) then
      SortedCons(x, s, key);
      [x] + s
    else
      var tail := s[1..];
      assert s == [s[0]] + tail;
      SortedTail(s, key);
      var rest := InsertBy(x, tail, key);
      forall y | y in rest ensures key(s[0]) <= key(y) {
        assert y in multiset(rest);
        if y != x {
          assert y in multiset(tail);
          var i :| 0 <= i < |tail| && tail[i] == y;
          assert s[i + 1] == y;
        }
      }
      SortedCons(s[0], rest, key);
      [s[0]] + rest
  }

  /** An element no larger than every element of a sorted sequence can go in front. */
  lemma SortedCons<T>(a: T, s: seq<T>, key: T -> int)
    requires SortedBy(s, key)
    requires (|s| > 0 ==> key(a) <= key(s[0])) || forall y | y in s :: key(a) <= key(y)
    ensures SortedBy([a] + s, key)
  {
    var out := [a] + s;
    forall i, j | 0 <= i < j < |out| ensures key(out[i]) <= key(out[j]) {
      assert out[j] == s[j - 1];
      if i > 0 { assert out[i] == s[i - 1]; } else { assert s[j - 1] in s; }
    }
  }

  lemma SortedTail<T>(s: seq<T>, key: T -> int)
    requires SortedBy(s, key) && |s| > 0
    ensures SortedBy(s[1..], key)
  {
    var tail := s[1..];
    forall i, j | 0 <= i < j < |tail| ensures key(tail[i]) <= key(tail[j]) {
      assert tail[i] == s[i + 1] && tail[j] == s[j + 1];
    }
  }

  /** Python's stable `sorted(s, key=key)` as an insertion sort. */
  function SortBy<T>(s: seq<T>, key: T -> int): (r: seq<T>)
    ensures SortedBy(r, key)
    ensures multiset(r) == multiset(s)
    ensures |r| == |s|
  {
    if |s| == 0 then []
    else
      assert s == [s[0]] + s[1..];
      InsertBy(s[0], SortBy(s[1..], key), key)
  }

  lemma SortByMembers<T>(s: seq<T>, key: T -> int)
    ensures forall x :: x in SortBy(s, key) <==> x in s
  {
    var r := SortBy(s, key);
    forall x ensures x in r <==> x in s {
      assert x in r <==> x in multiset(r);
      assert x in s <==> x in multiset(s);
    }
  }

  /** Inserting an element whose `k2` key is new keeps the `k2` keys pairwise distinct. */
  lemma {:induction false} InsertByUnique<T, K>(x: T, s: seq<T>, key: T -> int, k2: T -> K)
    requires SortedBy(s, key) && UniqueKeys(s, k2)
    requires forall y | y in s :: k2(y) != k2(x)
    ensures UniqueKeys(InsertBy(x, s, key), k2)
    decreases |s|
  {
    var r := InsertBy(x, s, key);
    if |s| == 0 || key(x) <= key(s[0]) {
      forall i, j | 0 <= i < j < |r| ensures k2(r[i]) != k2(r[j]) {
        assert r[j] == s[j - 1];
        if i > 0 { assert r[i] == s[i - 1]; }
      }
    } else {
      var tail := s[1..];
      assert s == [s[0]] + tail;
      InsertByUnique(x, tail, key, k2);
      var rest := InsertBy(x, tail, key);
      assert r == [s[0]] + rest;
      forall j | 0 <= j < |rest| ensures k2(s[0]) != k2(rest[j]) {
        InsertByFrom(x, tail, key, rest[j]);
        if rest[j] != x {
          var i :| 0 <= i < |tail| && tail[i] == rest[j];
          assert s[i + 1] == rest[j];
        }
      }
      forall i, j | 0 <= i < j < |r| ensures k2(r[i]) != k2(r[j]) {
        assert r[j] == rest[j - 1];
        if i > 0 { assert r[i] == rest[i - 1]; }
      }
    }
  }

  /** An element of the result is the inserted one or one of the original. */
  lemma InsertByFrom<T>(x: T, s: seq<T>, key: T -> int, y: T)
    requires SortedBy(s, key) && y in InsertBy(x, s, key)
    ensures y == x || y in s
  {
    assert y in multiset(InsertBy(x, s, key));
  }

  /** Sorting keeps any other key pairwise distinct. */
  lemma {:induction false} SortByUnique<T, K>(s: seq<T>, key: T -> int, k2: T -> K)
    requires UniqueKeys(s, k2)
    ensures UniqueKeys(SortBy(s, key), k2)
    decreases |s|
  {
    if |s| > 0 {
      assert s == [s[0]] + s[1..];
      SortByUnique(s[1..], key, k2);
      var sorted := SortBy(s[1..], key);
      forall y | y in sorted ensures k2(y) != k2(s[0]) {
        assert y in multiset(sorted);
        var i :| 0 <= i < |s[1..]| && s[1..][i] == y;
        assert s[i + 1] == y;
      }
      InsertByUnique(s[0], sorted, key, k2);
    }
  }

  predicate SortedByStr<T>(s: seq<T>, key: T -> string)
  {
    forall i, j | 0 <= i < j < |s| :: StrLe(key(s[i]), key(s[j]))
  }

  /** Inserts `x` in front of the first element whose key is not smaller. */
  function InsertByStr<T>(x: T, s: seq<T>, key: T -> string): (r: seq<T>)
    requires SortedByStr(s, key)
    ensures SortedByStr(r, key)
    ensures multiset(r) == multiset(s) + multiset{x}
    ensures |r| == |s| + 1
  {
    if |s| == 0 || StrLe(key(x), key(s[0])) then
      forall j | 0 < j < |s| ensures StrLe(key(x), key(s[j])) {
        StrLeTrans(key(x), key(s[0]), key(s[j]));
      }
      [x] + s
    else
      StrLeTotal(key(x), key(s[0]));
      var rest := InsertByStr(x, s[1..], key);
      assert multiset(s) == multiset{s[0]} + multiset(s[1..]) by { assert s == [s[0]] + s[1..]; }
      assert forall y | y in rest :: StrLe(key(s[0]), key(y)) by {
        forall y | y in rest ensures StrLe(key(s[0]), key(y)) {
          assert y in multiset(rest);
          assert y == x || y in multiset(s[1..]);
        }
      }
      [s[0]] + rest
  }

  /** Python's stable `list.sort(key=...)` on a string key, as an insertion sort. */
  function SortByStr<T>(s: seq<T>, key: T -> string): (r: seq<T>)
    ensures SortedByStr(r, key)
    ensures multiset(r) == multiset(s)
    ensures |r| == |s|
  {
    if |s| == 0 then []
    else
      assert s == [s[0]] + s[1..];
      InsertByStr(s[0], SortByStr(s[1..], key), key)
  }

  /** The elements of `s` whose key is `v`, in their order in `s`. */
  function WithKey<T, K(==)>(s: seq<T>, key: T -> K, v: K): (r: seq<T>)
    ensures forall x | x in r :: x in s && key(x) == v
  {
    if |s| == 0 then []
    else (if key(s[0]) == v then [s[0]] else []) + WithKey(s[1..], key, v)
  }

  /** Two prefixes commute when one of them is empty. */
  lemma SwapEmpty<T>(a: seq<T>, b: seq<T>, w: seq<T>)
    requires a == [] || b == []
    ensures a + (b + w) == b + (a + w)
  {
    if a == [] {
      assert a + (b + w) == b + w == b + (a + w);
    } else {
      assert a + (b + w) == a + w == b + (a + w);
    }
  }

  /** Insertion puts `x` after every element with a smaller key and before all others. */
  lemma {:induction false} InsertByWithKey<T>(x: T, s: seq<T>, key: T -> int, v: int)
    requires SortedBy(s, key)
    ensures WithKey(InsertBy(x, s, key), key, v) == (if key(x) == v then [x] else []) + WithKey(s, key, v)
    decreases |s|
  {
    var r := InsertBy(x, s, key);
    if |s| == 0 || key(x) <= key(s[0]) {
      assert r == [x] + s && r[1..] == s;
    } else {
      SortedTail(s, key);
      var t := InsertBy(x, s[1..], key);
      assert r == [s[0]] + t;
      InsertByWithKey(x, s[1..], key, v);
      assert r[1..] == t;
      var head := if key(s[0]) == v then [s[0]] else [];
      var mine := if key(x) == v then [x] else [];
      assert WithKey(r, key, v) == head + WithKey(t, key, v);
      assert WithKey(s, key, v) == head + WithKey(s[1..], key, v);
      assert head == [] || mine == [];
      SwapEmpty(head, mine, WithKey(s[1..], key, v));
    }
  }

  /** `SortBy` is stable: the elements with any one key keep their input order. */
  lemma {:induction false} SortByStable<T>(s: seq<T>, key: T -> int, v: int)
    ensures WithKey(SortBy(s, key), key, v) == WithKey(s, key, v)
    decreases |s|
  {
    if |s| > 0 {
      SortByStable(s[1..], key, v);
      InsertByWithKey(s[0], SortBy(s[1..], key), key, v);
    }
  }

  lemma SortedByStrTail<T>(s: seq<T>, key: T -> string)
    requires SortedByStr(s, key) && |s| > 0
    ensures SortedByStr(s[1..], key)
  {
    var tail := s[1..];
    forall i, j | 0 <= i < j < |tail| ensures StrLe(key(tail[i]), key(tail[j])) {
      assert tail[i] == s[i + 1] && tail[j] == s[j + 1];
    }
  }

  lemma {:induction false} InsertByStrWithKey<T>(x: T, s: seq<T>, key: T -> string, v: string)
    requires SortedByStr(s, key)
    ensures WithKey(InsertByStr(x, s, key), key, v) == (if key(x) == v then [x] else []) + WithKey(s, key, v)
    decreases |s|
  {
    var r := InsertByStr(x, s, key);
    if |s| == 0 || StrLe(key(x), key(s[0])) {
      assert r == [x] + s && r[1..] == s;
    } else {
      StrLeTotal(key(x), key(x));
      assert key(x) != key(s[0]);
      SortedByStrTail(s, key);
      var t := InsertByStr(x, s[1..], key);
      assert r == [s[0]] + t;
      InsertByStrWithKey(x, s[1..], key, v);
      assert r[1..] == t;
      var head := if key(s[0]) == v then [s[0]] else [];
      var mine := if key(x) == v then [x] else [];
      assert WithKey(r, key, v) == head + WithKey(t, key, v);
      assert WithKey(s, key, v) == head + WithKey(s[1..], key, v);
      assert head == [] || mine == [];
      SwapEmpty(head, mine, WithKey(s[1..], key, v));
    }
  }

  /** `SortByStr` is stable: the elements with any one key keep their input order. */
  lemma {:induction false} SortByStrStable<T>(s: seq<T>, key: T -> string, v: string)
    ensures WithKey(SortByStr(s, key), key, v) == WithKey(s, key, v)
    decreases |s|
  {
    if |s| > 0 {
      SortByStrStable(s[1..], key, v);
      InsertByStrWithKey(s[0], SortByStr(s[1..], key), key, v);
    }
  }

  /** An element occurring at two positions is counted twice. */
  lemma NotTwice<T>(s: seq<T>, i: nat, j: nat)
    requires i < j < |s| && multiset(s)[s[i]] <= 1
    ensures s[i] != s[j]
  {
    assert s == s[..j] + [s[j]] + s[j + 1..];
    assert s[..j][i] == s[i];
  }

  /** A permutation of a sequence whose keys are pairwise different has pairwise different keys. */
  lemma PermutationUniqueKeys<T, K>(a: seq<T>, b: seq<T>, key: T -> K)
    requires multiset(a) == multiset(b) && UniqueKeys(a, key)
    ensures UniqueKeys(b, key)
  {
    DistinctOnce(a);
    forall i, j | 0 <= i < j < |b| ensures key(b[i]) != key(b[j]) {
      NotTwice(b, i, j);
      assert b[i] in multiset(a) && b[j] in multiset(a);
      var p :| 0 <= p < |a| && a[p] == b[i];
      var q :| 0 <= q < |a| && a[q] == b[j];
      assert p != q;
    }
  }

  /** Strictly increasing in Python's string order. */
  predicate StrIncreasing(s: seq<string>)
  {
    forall i, j | 0 <= i < j < |s| :: StrLe(s[i], s[j]) && s[i] != s[j]
  }

  /** A non-empty set of strings has a smallest element. */
  lemma SmallestExists(s: set<string>)
    requires s != {}
    ensures exists x | x in s :: forall y | y in s :: StrLe(x, y)
  {
    var z :| z in s;
    if s - {z} == {} {
      StrLeTotal(z, z);
      forall y | y in s ensures StrLe(z, y) {
        assert y !in s - {z};
      }
    } else {
      SmallestExists(s - {z});
      var m :| m in s - {z} && forall y | y in s - {z} :: StrLe(m, y);
      StrLeTotal(m, z);
      if StrLe(m, z) {
        forall y | y in s ensures StrLe(m, y) {
          if y != z { assert y in s - {z}; }
        }
      } else {
        forall y | y in s ensures StrLe(z, y) {
          if y != z {
            assert y in s - {z};
            StrLeTrans(z, m, y);
          } else {
            StrLeTotal(z, z);
          }
        }
      }
    }
  }

  /** Python's `sorted(list(s))` for a set of strings. */
  method SortedSet(s: set<string>) returns (r: seq<string>)
    ensures StrIncreasing(r)
    ensures forall x :: x in r <==> x in s
    ensures |r| == |s|
  {
    r := [];
    var rest := s;
    while rest != {}
      invariant forall x :: x in s <==> x in r || x in rest
      invariant forall x | x in r :: x !in rest
      invariant StrIncreasing(r)
      invariant forall i, y | 0 <= i < |r| && y in rest :: StrLe(r[i], y)
      invariant |r| + |rest| == |s|
      decreases |rest|
    {
      SmallestExists(rest);
      var x :| x in rest && forall y | y in rest :: StrLe(x, y);
      r, rest := r + [x], rest - {x};
    }
  }

  /** The set of keys of a sequence. */
  function KeysOf<T(==), K>(s: seq<T>, key: T -> K): set<K>
  {
    set x | x in s :: key(x)
  }

  /**
   * The records a "seen set" pass appends: a record is kept iff its key is
   * neither in `seen` nor the key of an earlier kept record.
   */
  function KeepFirst<T, K>(s: seq<T>, key: T -> K, seen: set<K>): (r: seq<T>)
    decreases |s|
  {
    if |s| == 0 then []
    else if key(s[0]) in seen then KeepFirst(s[1..], key, seen)
    else [s[0]] + KeepFirst(s[1..], key, seen + {key(s[0])})
  }

  predicate UniqueKeys<T, K(==)>(s: seq<T>, key: T -> K)
  {
    forall i, j | 0 <= i < j < |s| :: key(s[i]) != key(s[j])
  }

  /**
   * The kept records have pairwise distinct keys, none of them already seen;
   * each is an input record; every input key is either already seen or kept.
   */
  lemma {:induction false} KeepFirstProperties<T, K>(s: seq<T>, key: T -> K, seen: set<K>)
    ensures UniqueKeys(KeepFirst(s, key, seen), key)
    ensures forall x | x in KeepFirst(s, key, seen) :: x in s && key(x) !in seen
    ensures KeysOf(s, key) <= seen + KeysOf(KeepFirst(s, key, seen), key)
    ensures |KeepFirst(s, key, seen)| <= |s|
    decreases |s|
  {
    if |s| > 0 {
      var k := key(s[0]);
      if k in seen {
        KeepFirstProperties(s[1..], key, seen);
        forall x | x in s ensures key(x) in seen + KeysOf(KeepFirst(s, key, seen), key) {
          if x != s[0] { assert x in s[1..]; }
        }
      } else {
        KeepFirstProperties(s[1..], key, seen + {k});
        var rest := KeepFirst(s[1..], key, seen + {k});
        var r := [s[0]] + rest;
        forall i, j | 0 <= i < j < |r| ensures key(r[i]) != key(r[j]) {
          if i == 0 { assert r[j] in rest; }
        }
        forall x | x in s ensures key(x) in seen + KeysOf(r, key) {
          if x != s[0] {
            assert x in s[1..];
            if key(x) != k && key(x) !in seen {
              assert key(x) in KeysOf(rest, key);
              var y :| y in rest && key(y) == key(x);
              assert y in r;
            }
          } else {
            assert s[0] in r;
          }
        }
      }
    }
  }

  lemma KeysOfConcat<T, K>(a: seq<T>, b: seq<T>, key: T -> K)
    ensures KeysOf(a + b, key) == KeysOf(a, key) + KeysOf(b, key)
  {
    forall k | k in KeysOf(a + b, key) ensures k in KeysOf(a, key) + KeysOf(b, key) {
      var x :| x in a + b && key(x) == k;
      if x in a {} else { assert x in b; }
    }
    forall k | k in KeysOf(a, key) + KeysOf(b, key) ensures k in KeysOf(a + b, key) {
      if k in KeysOf(a, key) {
        var x :| x in a && key(x) == k;
        assert x in a + b;
      } else {
        var x :| x in b && key(x) == k;
        assert x in a + b;
      }
    }
  }

  /** Appending a pass that treats the stored keys as seen keeps the keys pairwise distinct. */
  lemma KeepFirstAfter<T, K>(stored: seq<T>, s: seq<T>, key: T -> K, seen: set<K>)
    requires UniqueKeys(stored, key) && KeysOf(stored, key) <= seen
    ensures UniqueKeys(stored + KeepFirst(s, key, seen), key)
  {
    var added := KeepFirst(s, key, seen);
    var all := stored + added;
    KeepFirstProperties(s, key, seen);
    forall i, j | 0 <= i < j < |all| ensures key(all[i]) != key(all[j]) {
      if i >= |stored| {
        assert all[i] == added[i - |stored|] && all[j] == added[j - |stored|];
      } else if j >= |stored| {
        assert all[j] == added[j - |stored|];
        assert all[j] in added;
        assert all[i] in stored;
      }
    }
  }

  /** A pass over records whose keys have all been seen keeps nothing. */
  lemma {:induction false} KeepFirstSeen<T, K>(s: seq<T>, key: T -> K, seen: set<K>)
    requires forall x | x in s :: key(x) in seen
    ensures KeepFirst(s, key, seen) == []
    decreases |s|
  {
    if |s| > 0 {
      assert s[0] in s;
      KeepFirstSeen(s[1..], key, seen);
    }
  }

  /** Keys that the pass keeps are added to the seen set; nothing else is. */
  lemma {:induction false} KeepFirstKeys<T, K>(s: seq<T>, key: T -> K, seen: set<K>)
    ensures seen + KeysOf(s, key) == seen + KeysOf(KeepFirst(s, key, seen), key)
    decreases |s|
  {
    KeepFirstProperties(s, key, seen);
    var r := KeepFirst(s, key, seen);
    forall k | k in KeysOf(r, key) ensures k in KeysOf(s, key) {
      var y :| y in r && key(y) == k;
    }
  }

  lemma KeepFirstAppend<T, K>(s: seq<T>, x: T, key: T -> K, seen: set<K>)
    ensures KeepFirst(s + [x], key, seen)
         == KeepFirst(s, key, seen) + (if key(x) in seen + KeysOf(s, key) then [] else [x])
    decreases |s|
  {
    if |s| == 0 {
      assert KeysOf(s, key) == {};
      assert s + [x] == [x];
    } else {
      assert (s + [x])[1..] == s[1..] + [x];
      var k := key(s[0]);
      assert KeysOf(s, key) == {k} + KeysOf(s[1..], key) by {
        assert s == [s[0]] + s[1..];
        forall y | y in KeysOf(s, key) ensures y in {k} + KeysOf(s[1..], key) {
          var z :| z in s && key(z) == y;
          if z != s[0] { assert z in s[1..]; }
        }
      }
      if k in seen {
        KeepFirstAppend(s[1..], x, key, seen);
      } else {
        KeepFirstAppend(s[1..], x, key, seen + {k});
      }
    }
  }

  /**
   * The "seen set" loop: keeps each element whose key is not yet seen, adds
   * its key, and counts the others as duplicates.
   */
  method SeenSetPass<T, K>(xs: seq<T>, key: T -> K, seen: set<K>) returns (kept: seq<T>, duplicates: nat)
    ensures kept == KeepFirst(xs, key, seen)
    ensures |kept| + duplicates == |xs|
  {
    kept, duplicates := [], 0;
    var keys := seen;
    for k := 0 to |xs|
      invariant kept == KeepFirst(xs[..k], key, seen)
      invariant keys == seen + KeysOf(xs[..k], key)
      invariant |kept| + duplicates == k
    {
      KeepFirstStep(xs, k, key, seen);
      if key(xs[k]) in keys {
        duplicates := duplicates + 1;
      } else {
        kept := kept + [xs[k]];
        keys := keys + {key(xs[k])};
      }
    }
    assert xs[..|xs|] == xs;
  }

  /** One more element of `xs` through the "seen set" pass. */
  lemma KeepFirstStep<T, K>(xs: seq<T>, k: nat, key: T -> K, seen: set<K>)
    requires k < |xs|
    ensures KeepFirst(xs[..k + 1], key, seen)
         == KeepFirst(xs[..k], key, seen) + (if key(xs[k]) in seen + KeysOf(xs[..k], key) then [] else [xs[k]])
    ensures KeysOf(xs[..k + 1], key) == KeysOf(xs[..k], key) + {key(xs[k])}
  {
    assert xs[..k + 1] == xs[..k] + [xs[k]];
    KeepFirstAppend(xs[..k], xs[k], key, seen);
    KeysOfSnoc(xs[..k], xs[k], key);
  }

  lemma KeysOfSnoc<T, K>(s: seq<T>, x: T, key: T -> K)
    ensures KeysOf(s + [x], key) == KeysOf(s, key) + {key(x)}
  {
    forall k | k in KeysOf(s + [x], key) ensures k in KeysOf(s, key) + {key(x)} {
      var y :| y in s + [x] && key(y) == k;
      if y != x { assert y in s; }
    }
    forall k | k in KeysOf(s, key) ensures k in KeysOf(s + [x], key) {
      var y :| y in s && key(y) == k;
      assert y in s + [x];
    }
    assert x in s + [x];
  }

  function Same(x: string): string { x }

  /** Each value at its first occurrence, in order (LINQ's `Distinct`, a dict's insertion-ordered keys). */
  function Distinct(xs: seq<string>): seq<string>
  {
    KeepFirst(xs, Same, {})
  }

  lemma DistinctProperties(xs: seq<string>)
    ensures forall i, j | 0 <= i < j < |Distinct(xs)| :: Distinct(xs)[i] != Distinct(xs)[j]
    ensures forall x :: x in Distinct(xs) <==> x in xs
  {
    var r := Distinct(xs);
    KeepFirstProperties(xs, Same, {});
    forall x | x in xs ensures x in r {
      assert Same(x) in KeysOf(r, Same);
    }
  }

  lemma DistinctSnoc(xs: seq<string>, x: string)
    ensures Distinct(xs + [x]) == Distinct(xs) + if x in xs then [] else [x]
  {
    KeepFirstAppend(xs, x, Same, {});
    assert x in KeysOf(xs, Same) <==> x in xs by {
      if x in xs { assert Same(x) == x; }
    }
  }

  /** The sum of a map's values over a sequence of keys. */
  function SumOver<K>(keys: seq<K>, m: map<K, nat>): nat
  {
    if |keys| == 0 then 0
    else SumOver(keys[..|keys| - 1], m) + if keys[|keys| - 1] in m then m[keys[|keys| - 1]] else 0
  }

  lemma {:induction false} SumOverFresh<K>(keys: seq<K>, m: map<K, nat>, u: K, v: nat)
    requires u !in keys
    ensures SumOver(keys, m[u := v]) == SumOver(keys, m)
  {
    if |keys| > 0 {
      assert keys[|keys| - 1] in keys;
      SumOverFresh(keys[..|keys| - 1], m, u, v);
    }
  }

  lemma {:induction false} SumOverBump<K>(keys: seq<K>, m: map<K, nat>, u: K)
    requires u in keys && u in m && forall i, j | 0 <= i < j < |keys| :: keys[i] != keys[j]
    ensures SumOver(keys, m[u := m[u] + 1]) == SumOver(keys, m) + 1
  {
    var front, last := keys[..|keys| - 1], keys[|keys| - 1];
    if last == u {
      assert u !in front;
      SumOverFresh(front, m, u, m[u] + 1);
    } else {
      assert u in front;
      SumOverBump(front, m, u);
    }
  }

  /**
   * Counting one more occurrence of `u`, appending it to the distinct keys
   * when it is new, adds one to the sum.
   */
  lemma SumOverCount<K>(keys: seq<K>, m: map<K, nat>, u: K)
    requires forall i, j | 0 <= i < j < |keys| :: keys[i] != keys[j]
    requires u in keys <==> u in m
    ensures u in m ==> SumOver(keys, m[u := m[u] + 1]) == SumOver(keys, m) + 1
    ensures u !in m ==> SumOver(keys + [u], m[u := 1]) == SumOver(keys, m) + 1
  {
    if u in m {
      SumOverBump(keys, m, u);
    } else {
      SumOverFresh(keys, m, u, 1);
      assert (keys + [u])[..|keys|] == keys;
    }
  }

  /** Counting by key into a dict, `counts[k] = counts.get(k, 0) + 1`, element by element. */
  function Tally<T, K(==)>(xs: seq<T>, key: T -> K): map<K, nat>
  {
    if |xs| == 0 then map[]
    else
      var m, k := Tally(xs[..|xs| - 1], key), key(xs[|xs| - 1]);
      m[k := (if k in m then m[k] else 0) + 1]
  }

  /** Counting one more element bumps its key's count. */
  lemma TallySnoc<T, K>(xs: seq<T>, x: T, key: T -> K)
    ensures var m := Tally(xs, key); Tally(xs + [x], key) == m[key(x) := (if key(x) in m then m[key(x)] else 0) + 1]
  {
    assert (xs + [x])[..|xs|] == xs;
  }

  /** Tallying the filtered prefix one element further bumps that element's key when it passes the filter. */
  lemma FilterTallyStep<T, K>(xs: seq<T>, i: nat, p: T -> bool, key: T -> K)
    requires i < |xs|
    ensures var m, k := Tally(Filter(xs[..i], p), key), key(xs[i]);
            Tally(Filter(xs[..i + 1], p), key) == if p(xs[i]) then m[k := (if k in m then m[k] else 0) + 1] else m
  {
    var front := xs[..i];
    assert xs[..i + 1] == front + [xs[i]];
    FilterSnoc(front, xs[i], p);
    if p(xs[i]) {
      TallySnoc(Filter(front, p), xs[i], key);
    } else {
      assert Filter(xs[..i + 1], p) == Filter(front, p);
    }
  }

  /** The dict's keys in insertion order: each key at its first element. */
  function TallyKeys<T, K(==)>(xs: seq<T>, key: T -> K): seq<K>
  {
    if |xs| == 0 then []
    else
      var front, k := TallyKeys(xs[..|xs| - 1], key), key(xs[|xs| - 1]);
      front + if k in front then [] else [k]
  }

  /** One more element appends its key when it is new. */
  lemma TallyKeysSnoc<T, K>(xs: seq<T>, x: T, key: T -> K)
    ensures TallyKeys(xs + [x], key) == TallyKeys(xs, key) + if key(x) in TallyKeys(xs, key) then [] else [key(x)]
  {
    assert (xs + [x])[..|xs|] == xs;
  }

  /** The number of elements with key `k`. */
  function Occurrences<T, K(==)>(xs: seq<T>, key: T -> K, k: K): nat
  {
    if |xs| == 0 then 0 else Occurrences(xs[..|xs| - 1], key, k) + if key(xs[|xs| - 1]) == k then 1 else 0
  }

  /** The tally holds exactly the keys that occur, each with its number of elements. */
  lemma {:induction false} TallyCounts<T, K>(xs: seq<T>, key: T -> K, k: K)
    ensures k in Tally(xs, key) <==> Occurrences(xs, key, k) > 0
    ensures k in Tally(xs, key) ==> Tally(xs, key)[k] == Occurrences(xs, key, k)
  {
    if |xs| > 0 { TallyCounts(xs[..|xs| - 1], key, k); }
  }

  /** A key occurs exactly when some element has it. */
  lemma {:induction false} OccurrencesPositive<T, K>(xs: seq<T>, key: T -> K, k: K)
    ensures Occurrences(xs, key, k) > 0 <==> exists i | 0 <= i < |xs| :: key(xs[i]) == k
  {
    if |xs| > 0 {
      var front := xs[..|xs| - 1];
      OccurrencesPositive(front, key, k);
      if i :| 0 <= i < |xs| && key(xs[i]) == k {
        if i < |front| { assert front[i] == xs[i]; }
      }
      if i :| 0 <= i < |front| && key(front[i]) == k {
        assert xs[i] == front[i];
      }
    }
  }

  /** The insertion-ordered keys are pairwise different. */
  lemma {:induction false} TallyKeysDistinct<T, K>(xs: seq<T>, key: T -> K)
    ensures forall i, j | 0 <= i < j < |TallyKeys(xs, key)| :: TallyKeys(xs, key)[i] != TallyKeys(xs, key)[j]
  {
    if |xs| > 0 { TallyKeysDistinct(xs[..|xs| - 1], key); }
  }

  /** The insertion-ordered keys are the tally's keys. */
  lemma {:induction false} TallyKeysIn<T, K>(xs: seq<T>, key: T -> K, k: K)
    ensures k in TallyKeys(xs, key) <==> k in Tally(xs, key)
  {
    if |xs| > 0 { TallyKeysIn(xs[..|xs| - 1], key, k); }
  }

  /** Summed over its keys, a tally counts every element once. */
  lemma {:induction false} TallyTotal<T, K>(xs: seq<T>, key: T -> K)
    ensures SumOver(TallyKeys(xs, key), Tally(xs, key)) == |xs|
  {
    if |xs| > 0 {
      var front, k := xs[..|xs| - 1], key(xs[|xs| - 1]);
      TallyTotal(front, key);
      TallyKeysDistinct(front, key);
      var m, ks := Tally(front, key), TallyKeys(front, key);
      if k in m {
        TallyKeysIn(front, key, k);
        assert TallyKeys(xs, key) == ks && Tally(xs, key) == m[k := m[k] + 1];
        SumOverBump(ks, m, k);
      } else {
        TallyKeysIn(front, key, k);
        SumOverFresh(ks, m, k, 1);
        assert TallyKeys(xs, key)[..|ks|] == ks;
      }
    }
  }

  /** Pairwise different elements each occur once. */
  lemma {:induction false} DistinctOnce<T>(s: seq<T>)
    requires forall i, j | 0 <= i < j < |s| :: s[i] != s[j]
    ensures forall x :: multiset(s)[x] <= 1
  {
    if |s| > 0 {
      var front, last := s[..|s| - 1], s[|s| - 1];
      assert s == front + [last];
      DistinctOnce(front);
      forall i | 0 <= i < |front| ensures front[i] != last {
        assert front[i] == s[i];
      }
    }
  }

  predicate Increasing(s: seq<int>)
  {
    forall i, j | 0 <= i < j < |s| :: s[i] < s[j]
  }

  /** `x` added to an increasing list unless already there. */
  function InsertUnique(x: int, s: seq<int>): seq<int>
  {
    if |s| == 0 then [x]
    else if x < s[0] then [x] + s
    else if x == s[0] then s
    else [s[0]] + InsertUnique(x, s[1..])
  }

  /** Inserting keeps the list increasing and adds exactly `x`. */
  lemma {:induction false} InsertUniqueProperties(x: int, s: seq<int>)
    requires Increasing(s)
    ensures Increasing(InsertUnique(x, s))
    ensures forall y :: y in InsertUnique(x, s) <==> y == x || y in s
  {
    if |s| > 0 && x > s[0] {
      var rest := s[1..];
      assert s == [s[0]] + rest;
      assert Increasing(rest) by {
        forall i, j | 0 <= i < j < |rest| ensures rest[i] < rest[j] {
          assert rest[i] == s[i + 1] && rest[j] == s[j + 1];
        }
      }
      InsertUniqueProperties(x, rest);
      var r := InsertUnique(x, rest);
      forall y | y in r ensures s[0] < y {
        if y != x {
          var i :| 0 <= i < |rest| && rest[i] == y;
          assert s[i + 1] == y;
        }
      }
      var out := [s[0]] + r;
      assert InsertUnique(x, s) == out;
      forall i, j | 0 <= i < j < |out| ensures out[i] < out[j] {
        assert out[j] == r[j - 1];
        if i > 0 {
          assert out[i] == r[i - 1];
        } else {
          assert r[j - 1] in r;
        }
      }
    } else if |s| > 0 && x < s[0] {
      var out := [x] + s;
      assert InsertUnique(x, s) == out;
      forall i, j | 0 <= i < j < |out| ensures out[i] < out[j] {
        assert out[j] == s[j - 1];
        if i > 0 {
          assert out[i] == s[i - 1];
        }
      }
    }
  }

  /** The distinct values in increasing order: the keys of a group-by. */
  function DistinctSorted(s: seq<int>): (r: seq<int>)
    ensures Increasing(r)
    ensures forall y :: y in r <==> y in s
  {
    if |s| == 0 then []
    else
      var front := s[..|s| - 1];
      assert s == front + [s[|s| - 1]];
      var d := DistinctSorted(front);
      InsertUniqueProperties(s[|s| - 1], d);
      InsertUnique(s[|s| - 1], d)
  }
}
