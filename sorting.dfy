/** `Array.prototype.sort` with a comparator, as both pages use it.

    Every comparator in the source orders by a number (`b.clicks - a.clicks`,
    `dateB - dateA`, ...), and the ECMAScript sort is stable, so a sort is
    modelled as a stable insertion sort by a key. Keys are pairs compared
    lexicographically: the first component lets a caller put a whole class of
    rows (the ones whose date does not parse) after all the others. */
module Sorting {
  import opened Seqs

  type SortKey = (int, int)

  /** Strict lexicographic order on keys. */
  predicate Below(a: SortKey, b: SortKey)
  {
    a.0 < b.0 || (a.0 == b.0 && a.1 < b.1)
  }

  /** Inserts `x` in front of the first element whose key is not below its own,
      so that `x` precedes the elements with an equal key. */
  function Insert<T>(x: T, s: seq<T>, key: T -> SortKey): seq<T>
  {
    if s == [] || !Below(key(s[0]), key(x)) then [x] + s
    else [s[0]] + Insert(x, s[1..], key)
  }

  /** Stable sort of `s` by ascending key. */
  function SortBy<T>(s: seq<T>, key: T -> SortKey): seq<T>
  {
    if s == [] then [] else Insert(s[0], SortBy(s[1..], key), key)
  }

  /** No element has a key below that of an element before it. */
  ghost predicate Sorted<T>(s: seq<T>, key: T -> SortKey)
  {
    forall i, j :: 0 <= i < j < |s| ==> !Below(key(s[j]), key(s[i]))
  }

  /** The elements of `s` whose key is `k`, in their order in `s`. */
  function WithKey<T>(s: seq<T>, key: T -> SortKey, k: SortKey): seq<T>
  {
    if s == [] then []
    else if key(s[0]) == k then [s[0]] + WithKey(s[1..], key, k)
    else WithKey(s[1..], key, k)
  }

  lemma {:induction false} InsertPermutes<T>(x: T, s: seq<T>, key: T -> SortKey)
    ensures multiset(Insert(x, s, key)) == multiset(s) + multiset{x}
    ensures |Insert(x, s, key)| == |s| + 1
  {
    if s != [] && Below(key(s[0]), key(x)) {
      InsertPermutes(x, s[1..], key);
      assert s == [s[0]] + s[1..];
    }
  }

  /** Inserting keeps a lower bound on the keys. */
  lemma {:induction false} InsertBound<T>(x: T, s: seq<T>, key: T -> SortKey, b: SortKey)
    requires forall i :: 0 <= i < |s| ==> !Below(key(s[i]), b)
    requires !Below(key(x), b)
    ensures forall i :: 0 <= i < |Insert(x, s, key)| ==> !Below(key(Insert(x, s, key)[i]), b)
  {
    if s != [] && Below(key(s[0]), key(x)) {
      InsertBound(x, s[1..], key, b);
      assert Insert(x, s, key) == [s[0]] + Insert(x, s[1..], key);
    }
  }

  lemma {:induction false} InsertSorted<T>(x: T, s: seq<T>, key: T -> SortKey)
    requires Sorted(s, key)
    ensures Sorted(Insert(x, s, key), key)
  {
    var r := Insert(x, s, key);
    if s == [] || !Below(key(s[0]), key(x)) {
      assert r == [x] + s;
      forall i, j | 0 <= i < j < |r| ensures !Below(key(r[j]), key(r[i])) {
        assert r[j] == s[j - 1];
        if i > 0 {
          assert r[i] == s[i - 1];
        }
      }
    } else {
      var t := Insert(x, s[1..], key);
      InsertSorted(x, s[1..], key);
      InsertBound(x, s[1..], key, key(s[0]));
      assert r == [s[0]] + t;
      forall i, j | 0 <= i < j < |r| ensures !Below(key(r[j]), key(r[i])) {
        assert r[j] == t[j - 1];
        if i > 0 {
          assert r[i] == t[i - 1];
        }
      }
    }
  }

  lemma {:induction false} InsertWithKey<T>(x: T, s: seq<T>, key: T -> SortKey, k: SortKey)
    ensures WithKey(Insert(x, s, key), key, k)
            == (if key(x) == k then [x] else []) + WithKey(s, key, k)
  {
    var r := Insert(x, s, key);
    if s == [] || !Below(key(s[0]), key(x)) {
      assert r == [x] + s;
      assert r[0] == x && r[1..] == s;
    } else {
      InsertWithKey(x, s[1..], key, k);
      assert r == [s[0]] + Insert(x, s[1..], key);
      assert r[0] == s[0] && r[1..] == Insert(x, s[1..], key);
    }
  }

  /** The sort returns a sorted permutation of its input in which the elements
      of each key keep their input order: that is stability. */
  lemma SortByFacts<T>(s: seq<T>, key: T -> SortKey)
    ensures |SortBy(s, key)| == |s|
    ensures multiset(SortBy(s, key)) == multiset(s)
    ensures Sorted(SortBy(s, key), key)
    ensures forall k :: WithKey(SortBy(s, key), key, k) == WithKey(s, key, k)
  {
    SortByPermutes(s, key);
    SortBySorted(s, key);
    forall k ensures WithKey(SortBy(s, key), key, k) == WithKey(s, key, k) {
      SortByStable(s, key, k);
    }
  }

  lemma {:induction false} SortByPermutes<T>(s: seq<T>, key: T -> SortKey)
    ensures |SortBy(s, key)| == |s|
    ensures multiset(SortBy(s, key)) == multiset(s)
  {
    if s != [] {
      SortByPermutes(s[1..], key);
      InsertPermutes(s[0], SortBy(s[1..], key), key);
      assert s == [s[0]] + s[1..];
    }
  }

  lemma {:induction false} SortBySorted<T>(s: seq<T>, key: T -> SortKey)
    ensures Sorted(SortBy(s, key), key)
  {
    if s != [] {
      SortBySorted(s[1..], key);
      InsertSorted(s[0], SortBy(s[1..], key), key);
    }
  }

  lemma {:induction false} SortByStable<T>(s: seq<T>, key: T -> SortKey, k: SortKey)
    ensures WithKey(SortBy(s, key), key, k) == WithKey(s, key, k)
  {
    if s != [] {
      SortByStable(s[1..], key, k);
      InsertWithKey(s[0], SortBy(s[1..], key), key, k);
    }
  }

  /** A comparator that always answers 0 leaves the array as it was. */
  lemma {:induction false} SortByConstant<T>(s: seq<T>, key: T -> SortKey, c: SortKey)
    requires forall i :: 0 <= i < |s| ==> key(s[i]) == c
    ensures SortBy(s, key) == s
  {
    if s != [] {
      SortByConstant(s[1..], key, c);
    }
  }

  lemma {:induction false} WithKeyHead<T>(s: seq<T>, key: T -> SortKey, i: nat)
    requires i < |s|
    requires forall j :: 0 <= j < i ==> key(s[j]) != key(s[i])
    ensures WithKey(s, key, key(s[i])) != []
    ensures WithKey(s, key, key(s[i]))[0] == s[i]
  {
    if i > 0 {
      WithKeyHead(s[1..], key, i - 1);
    }
  }

  /** Cutting a sequence short keeps, for each key, a prefix of its elements. */
  lemma {:induction false} WithKeyTake<T>(s: seq<T>, key: T -> SortKey, k: SortKey, n: nat)
    ensures WithKey(Take(s, n), key, k) <= WithKey(s, key, k)
  {
    if s != [] && n > 0 {
      WithKeyTake(s[1..], key, k, n - 1);
      assert Take(s, n) == [s[0]] + Take(s[1..], n - 1);
    }
  }

  /** The first `limit` elements of a stable sort: at most `limit` of them,
      all taken from the input, in key order, and for each key a prefix of the
      input's elements with that key, in their input order. */
  lemma SortedPrefixFacts<T>(s: seq<T>, key: T -> SortKey, limit: nat)
    ensures |Take(SortBy(s, key), limit)| <= limit && |Take(SortBy(s, key), limit)| <= |s|
    ensures forall i :: 0 <= i < |Take(SortBy(s, key), limit)| ==> Take(SortBy(s, key), limit)[i] in s
    ensures Sorted(Take(SortBy(s, key), limit), key)
    ensures forall k :: WithKey(Take(SortBy(s, key), limit), key, k) <= WithKey(s, key, k)
    ensures limit >= |s| ==> Take(SortBy(s, key), limit) == SortBy(s, key)
    ensures forall x, i :: x in multiset(s) - multiset(Take(SortBy(s, key), limit)) && 0 <= i < |Take(SortBy(s, key), limit)|
              ==> !Below(key(x), key(Take(SortBy(s, key), limit)[i]))
  {
    var r := SortBy(s, key);
    var t := Take(r, limit);
    SortByFacts(s, key);
    SortedPrefixTop(s, key, limit);
    forall i | 0 <= i < |t| ensures t[i] in s {
      assert t[i] == r[i];
      assert r[i] in multiset(s);
    }
    forall k ensures WithKey(t, key, k) <= WithKey(s, key, k) {
      WithKeyTake(r, key, k, limit);
    }
  }

  /** What the first `limit` elements of a sort leave out has no key below
      that of any element they keep: the prefix holds the top elements. */
  lemma SortedPrefixTop<T>(s: seq<T>, key: T -> SortKey, limit: nat)
    ensures forall x, i :: x in multiset(s) - multiset(Take(SortBy(s, key), limit)) && 0 <= i < |Take(SortBy(s, key), limit)|
              ==> !Below(key(x), key(Take(SortBy(s, key), limit)[i]))
  {
    var r := SortBy(s, key);
    var t := Take(r, limit);
    SortByPermutes(s, key);
    SortBySorted(s, key);
    if limit < |r| {
      var rest := r[limit..];
      assert t == r[..limit];
      assert r == t + rest;
      assert multiset(s) - multiset(t) == multiset(rest);
      forall x, i | x in multiset(s) - multiset(t) && 0 <= i < |t| ensures !Below(key(x), key(t[i])) {
        assert x in rest;
        var j :| 0 <= j < |rest| && rest[j] == x;
        assert r[limit + j] == x && r[i] == t[i];
      }
    } else {
      assert t == r;
    }
  }

  /** No two elements of `s` share an identity. */
  ghost predicate UniqueBy<T, K>(s: seq<T>, id: T -> K)
  {
    forall i, j :: 0 <= i < j < |s| ==> id(s[i]) != id(s[j])
  }

  lemma {:induction false} InsertUnique<T, K>(x: T, s: seq<T>, key: T -> SortKey, id: T -> K)
    requires UniqueBy(s, id)
    requires forall i :: 0 <= i < |s| ==> id(s[i]) != id(x)
    ensures UniqueBy(Insert(x, s, key), id)
  {
    if s != [] && Below(key(s[0]), key(x)) {
      InsertUnique(x, s[1..], key, id);
      var tail := Insert(x, s[1..], key);
      InsertPermutes(x, s[1..], key);
      forall j | 0 <= j < |tail| ensures id(tail[j]) != id(s[0]) {
        assert tail[j] in multiset(s[1..]) + multiset{x};
        if tail[j] != x {
          assert tail[j] in s[1..];
          var k :| 0 <= k < |s[1..]| && s[1..][k] == tail[j];
          assert s[k + 1] == tail[j];
        }
      }
    }
  }

  /** Sorting keeps the elements' identities distinct. */
  lemma {:induction false} SortByUnique<T, K>(s: seq<T>, key: T -> SortKey, id: T -> K)
    requires UniqueBy(s, id)
    ensures UniqueBy(SortBy(s, key), id)
  {
    if s != [] {
      SortByUnique(s[1..], key, id);
      var sorted := SortBy(s[1..], key);
      SortByPermutes(s[1..], key);
      forall j | 0 <= j < |sorted| ensures id(sorted[j]) != id(s[0]) {
        assert sorted[j] in multiset(s[1..]);
        var k :| 0 <= k < |s[1..]| && s[1..][k] == sorted[j];
        assert s[k + 1] == sorted[j];
      }
      InsertUnique(s[0], sorted, key, id);
    }
  }
}
