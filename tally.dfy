/** Counting by key, as both pages do it: a plain JS object used as a counter,
    filled by `counts[k] = (counts[k] || 0) + 1` inside a `forEach`, then read
    back with `Object.entries`, sorted by count (`b[1] - a[1]`) and cut with
    `slice(0, n)` or read at `[0][0]` for the most frequent key.

    The object is modelled by its entries in insertion order, which is the
    order `Object.entries` reports for string keys that are not array indices. */
module Tally {
  import opened Seqs
  import opened Sorting

  /** One `[key, count]` pair of `Object.entries`. */
  datatype Entry = Entry(key: string, n: nat)

  /** A counter object, as the list of its entries in insertion order. */
  type Counter = seq<Entry>

  /** `Object.keys`. */
  function Keys(c: Counter): (ks: seq<string>)
    ensures |ks| == |c|
    ensures forall i :: 0 <= i < |c| ==> ks[i] == c[i].key
  {
    if c == [] then [] else [c[0].key] + Keys(c[1..])
  }

  /** `c[k] || 0`. */
  function CountOf(c: Counter, k: string): nat
  {
    if c == [] then 0 else if c[0].key == k then c[0].n else CountOf(c[1..], k)
  }

  /** `c[k] = (c[k] || 0) + 1`: an existing key keeps its place, a new one goes last. */
  function Bump(c: Counter, k: string): Counter
  {
    if c == [] then [Entry(k, 1)]
    else if c[0].key == k then [Entry(k, c[0].n + 1)] + c[1..]
    else [c[0]] + Bump(c[1..], k)
  }

  /** The counter that `xs.forEach(x => c[x] = (c[x] || 0) + 1)` leaves in `c = {}`. */
  function Counts(xs: seq<string>): (c: Counter)
    ensures Total(c) == |xs|
  {
    if xs == [] then []
    else
      var init := Counts(xs[..|xs| - 1]);
      BumpTotal(init, xs[|xs| - 1]);
      Bump(init, xs[|xs| - 1])
  }

  /** One more value bumps the counter of the values before it. */
  lemma CountsSnoc(xs: seq<string>, x: string)
    ensures Counts(xs + [x]) == Bump(Counts(xs), x)
  {
    assert (xs + [x])[..|xs|] == xs;
  }

  /** The sum of all counts. */
  function Total(c: Counter): nat
  {
    if c == [] then 0 else c[0].n + Total(c[1..])
  }

  /** The elements of `new Set(xs)`, in insertion order. */
  function Distinct(xs: seq<string>): seq<string>
  {
    if xs == [] then []
    else if xs[|xs| - 1] in xs[..|xs| - 1] then Distinct(xs[..|xs| - 1])
    else Distinct(xs[..|xs| - 1]) + [xs[|xs| - 1]]
  }

  /** No key occurs twice and every count is positive: what a counter object
      that was only ever bumped looks like. */
  ghost predicate Proper(c: Counter)
  {
    && (forall i, j :: 0 <= i < j < |c| ==> c[i].key != c[j].key)
    && (forall i :: 0 <= i < |c| ==> c[i].n >= 1)
  }

  lemma {:induction false} CountOfAt(c: Counter, i: nat)
    requires Proper(c) && i < |c|
    ensures CountOf(c, c[i].key) == c[i].n
  {
    if i > 0 {
      CountOfAt(c[1..], i - 1);
    }
  }

  lemma {:induction false} CountOfMissing(c: Counter, k: string)
    requires k !in Keys(c)
    ensures CountOf(c, k) == 0
  {
    if c != [] {
      assert Keys(c)[0] == c[0].key;
      assert Keys(c[1..]) == Keys(c)[1..];
      CountOfMissing(c[1..], k);
    }
  }

  /** Bumping adds one to exactly one key, appends the key if it is new, and
      keeps the counter proper. */
  lemma BumpFacts(c: Counter, k: string)
    requires Proper(c)
    ensures Proper(Bump(c, k))
    ensures Keys(Bump(c, k)) == if k in Keys(c) then Keys(c) else Keys(c) + [k]
    ensures forall k' :: CountOf(Bump(c, k), k') == CountOf(c, k') + (if k' == k then 1 else 0)
    ensures Total(Bump(c, k)) == Total(c) + 1
  {
    BumpProper(c, k);
    BumpKeyList(c, k);
    BumpCountOf(c, k);
    BumpTotal(c, k);
  }

  lemma {:induction false} BumpKeyList(c: Counter, k: string)
    ensures Keys(Bump(c, k)) == if k in Keys(c) then Keys(c) else Keys(c) + [k]
  {
    if c != [] {
      assert Keys(c) == [c[0].key] + Keys(c[1..]);
      if c[0].key == k {
        assert Bump(c, k)[1..] == c[1..];
        assert Keys(Bump(c, k)) == [k] + Keys(c[1..]);
      } else {
        BumpKeyList(c[1..], k);
        assert Bump(c, k)[1..] == Bump(c[1..], k);
        assert Keys(Bump(c, k)) == [c[0].key] + Keys(Bump(c[1..], k));
      }
    }
  }

  lemma {:induction false} BumpCountOf(c: Counter, k: string)
    ensures forall k' :: CountOf(Bump(c, k), k') == CountOf(c, k') + (if k' == k then 1 else 0)
  {
    if c != [] && c[0].key != k {
      BumpCountOf(c[1..], k);
      assert Bump(c, k)[1..] == Bump(c[1..], k);
    }
  }

  /** Sorting a counter keeps the sum of its counts. */
  lemma {:induction false} SortedTotal(c: Counter, key: Entry -> SortKey)
    ensures Total(SortBy(c, key)) == Total(c)
  {
    if c != [] {
      SortedTotal(c[1..], key);
      InsertTotal(c[0], SortBy(c[1..], key), key);
    }
  }

  lemma {:induction false} InsertTotal(e: Entry, c: Counter, key: Entry -> SortKey)
    ensures Total(Insert(e, c, key)) == e.n + Total(c)
  {
    if c != [] && Below(key(c[0]), key(e)) {
      InsertTotal(e, c[1..], key);
      assert Insert(e, c, key)[1..] == Insert(e, c[1..], key);
    } else {
      assert Insert(e, c, key)[1..] == c;
    }
  }

  lemma {:induction false} BumpTotal(c: Counter, k: string)
    ensures Total(Bump(c, k)) == Total(c) + 1
  {
    if c != [] {
      if c[0].key == k {
        assert Bump(c, k)[1..] == c[1..];
      } else {
        BumpTotal(c[1..], k);
        assert Bump(c, k)[1..] == Bump(c[1..], k);
      }
    }
  }

  lemma {:induction false} BumpProper(c: Counter, k: string)
    requires Proper(c)
    ensures Proper(Bump(c, k))
  {
    if c != [] {
      if c[0].key == k {
        assert Bump(c, k)[1..] == c[1..];
      } else {
        BumpProper(c[1..], k);
        assert Bump(c, k)[1..] == Bump(c[1..], k);
        BumpTailKeys(c, k);
      }
    }
  }

  /** Every key of a bumped counter is the bumped key or the key that was at
      the same place. */
  lemma {:induction false} BumpKeys(c: Counter, k: string)
    ensures forall j :: 0 <= j < |Bump(c, k)| ==>
              Bump(c, k)[j].key == k || (j < |c| && Bump(c, k)[j].key == c[j].key)
  {
    if c != [] && c[0].key != k {
      BumpKeys(c[1..], k);
      var t := Bump(c[1..], k);
      assert Bump(c, k) == [c[0]] + t;
      forall j | 1 <= j < |Bump(c, k)|
        ensures Bump(c, k)[j].key == k || (j < |c| && Bump(c, k)[j].key == c[j].key)
      {
        assert Bump(c, k)[j] == t[j - 1];
      }
    }
  }

  /** Bumping past the head: the head's key stays unique. */
  lemma BumpTailKeys(c: Counter, k: string)
    requires Proper(c) && c != [] && c[0].key != k
    requires Proper(Bump(c[1..], k))
    ensures forall i, j :: 0 <= i < j < |Bump(c, k)| ==> Bump(c, k)[i].key != Bump(c, k)[j].key
  {
    var t := Bump(c[1..], k);
    var b := Bump(c, k);
    assert b == [c[0]] + t;
    BumpKeys(c, k);
    forall i, j | 0 <= i < j < |b| ensures b[i].key != b[j].key {
      if i > 0 {
        assert b[i] == t[i - 1] && b[j] == t[j - 1];
      }
    }
  }

  /** The counter built by the loop has one entry per distinct value, in order
      of first appearance, and each count is the number of occurrences. */
  lemma CountsFacts(xs: seq<string>)
    ensures Proper(Counts(xs))
    ensures Keys(Counts(xs)) == Distinct(xs)
    ensures forall k :: CountOf(Counts(xs), k) == multiset(xs)[k]
    ensures Total(Counts(xs)) == |xs|
  {
    CountsProper(xs);
    CountsKeys(xs);
    CountsOccurrences(xs);
  }

  lemma {:induction false} CountsProper(xs: seq<string>)
    ensures Proper(Counts(xs))
  {
    if xs != [] {
      CountsProper(xs[..|xs| - 1]);
      BumpProper(Counts(xs[..|xs| - 1]), xs[|xs| - 1]);
    }
  }

  lemma {:induction false} CountsKeys(xs: seq<string>)
    ensures Keys(Counts(xs)) == Distinct(xs)
  {
    if xs != [] {
      var init, x := xs[..|xs| - 1], xs[|xs| - 1];
      CountsKeys(init);
      BumpKeyList(Counts(init), x);
      DistinctHasAll(init, x);
    }
  }

  lemma {:induction false} CountsOccurrences(xs: seq<string>)
    ensures forall k :: CountOf(Counts(xs), k) == multiset(xs)[k]
  {
    if xs != [] {
      var init, x := xs[..|xs| - 1], xs[|xs| - 1];
      CountsOccurrences(init);
      BumpCountOf(Counts(init), x);
      assert xs == init + [x];
      CountsStep(init, x, xs);
    }
  }

  lemma CountsStep(init: seq<string>, x: string, xs: seq<string>)
    requires xs == init + [x]
    requires forall k :: CountOf(Counts(init), k) == multiset(init)[k]
    ensures forall k :: CountOf(Counts(init), k) + (if k == x then 1 else 0) == multiset(xs)[k]
  {
    assert multiset(xs) == multiset(init) + multiset{x};
  }

  lemma {:induction false} DistinctHasAll(xs: seq<string>, x: string)
    ensures x in Distinct(xs) <==> x in xs
  {
    if xs != [] {
      var init := xs[..|xs| - 1];
      DistinctHasAll(init, x);
      assert xs == init + [xs[|xs| - 1]];
    }
  }

  /** `new Set(xs)` lists every element of `xs` exactly once, so its size is at
      most `xs.length` and is at least 1 when `xs` is not empty. */
  lemma {:induction false} DistinctFacts(xs: seq<string>)
    ensures forall x :: x in Distinct(xs) <==> x in xs
    ensures forall i, j :: 0 <= i < j < |Distinct(xs)| ==> Distinct(xs)[i] != Distinct(xs)[j]
    ensures |Distinct(xs)| <= |xs|
    ensures xs != [] ==> |Distinct(xs)| >= 1
  {
    forall x ensures x in Distinct(xs) <==> x in xs {
      DistinctHasAll(xs, x);
    }
    if xs != [] {
      var init := xs[..|xs| - 1];
      DistinctFacts(init);
    }
  }

  /** Entry order used by every count chart: larger counts first. */
  function ByCountDesc(e: Entry): SortKey
  {
    var n: int := e.n;
    (0, -n)
  }

  /** `Object.entries(c).sort((a, b) => b[1] - a[1]).slice(0, limit)`. */
  function Top(c: Counter, limit: nat): Counter
  {
    Take(SortBy(c, ByCountDesc), limit)
  }

  /** `Object.entries(c).sort((a, b) => b[1] - a[1])[0]?.[0]`: the most frequent key. */
  function MostFrequent(c: Counter): Option<string>
  {
    if c == [] then None else Some(SortBy(c, ByCountDesc)[0].key)
  }

  /** Index of the first entry with the largest count: the reference definition
      of "most frequent, earliest inserted on a tie". */
  function FirstMaxIndex(c: Counter): (i: nat)
    requires c != []
    ensures i < |c|
    ensures forall j :: 0 <= j < |c| ==> c[j].n <= c[i].n
    ensures forall j :: 0 <= j < i ==> c[j].n < c[i].n
  {
    if |c| == 1 then 0
    else
      var i := FirstMaxIndex(c[1..]);
      if c[0].n >= c[1 + i].n then 0 else 1 + i
  }

  /** The entry the sort puts first has the largest count. */
  lemma SortedHeadCount(c: Counter)
    requires c != []
    ensures |SortBy(c, ByCountDesc)| == |c|
    ensures SortBy(c, ByCountDesc)[0].n == c[FirstMaxIndex(c)].n
  {
    var r := SortBy(c, ByCountDesc);
    var m := FirstMaxIndex(c);
    SortByFacts(c, ByCountDesc);
    assert c[m] in multiset(r);
    var p :| 0 <= p < |r| && r[p] == c[m];
    if p > 0 {
      assert !Below(ByCountDesc(r[p]), ByCountDesc(r[0]));
    }
    assert r[0] in multiset(c);
  }

  /** The key the sorted entries start with is the first key of largest count. */
  lemma MostFrequentIsFirstMax(c: Counter)
    requires c != []
    ensures MostFrequent(c) == Some(c[FirstMaxIndex(c)].key)
  {
    var r := SortBy(c, ByCountDesc);
    var m := FirstMaxIndex(c);
    SortedHeadCount(c);
    var k := ByCountDesc(c[m]);
    assert ByCountDesc(r[0]) == k;
    WithKeyHead(r, ByCountDesc, 0);
    assert forall j :: 0 <= j < m ==> ByCountDesc(c[j]) != k;
    WithKeyHead(c, ByCountDesc, m);
    SortByFacts(c, ByCountDesc);
    assert WithKey(r, ByCountDesc, k) == WithKey(c, ByCountDesc, k);
  }

  /** The top-`limit` series: at most `limit` entries, taken from the counter,
      counts never increasing, and entries of equal count in insertion order. */
  lemma TopFacts(c: Counter, limit: nat)
    ensures |Top(c, limit)| <= limit && |Top(c, limit)| <= |c|
    ensures forall i :: 0 <= i < |Top(c, limit)| ==> Top(c, limit)[i] in c
    ensures forall i, j :: 0 <= i < j < |Top(c, limit)| ==> Top(c, limit)[i].n >= Top(c, limit)[j].n
    ensures forall k :: WithKey(Top(c, limit), ByCountDesc, k) <= WithKey(c, ByCountDesc, k)
    ensures limit >= |c| ==> multiset(Top(c, limit)) == multiset(c)
    ensures forall e, i :: e in multiset(c) - multiset(Top(c, limit)) && 0 <= i < |Top(c, limit)|
              ==> e.n <= Top(c, limit)[i].n
    ensures Proper(c) ==> Proper(Top(c, limit))
  {
    SortedPrefixFacts(c, ByCountDesc, limit);
    TopLeavesSmaller(c, limit);
    if Proper(c) {
      TopProper(c, limit);
    }
    forall i, j | 0 <= i < j < |Top(c, limit)| ensures Top(c, limit)[i].n >= Top(c, limit)[j].n {
      assert !Below(ByCountDesc(Top(c, limit)[j]), ByCountDesc(Top(c, limit)[i]));
    }
    if limit >= |c| {
      SortByFacts(c, ByCountDesc);
    }
  }

  /** An entry the top-`limit` series leaves out counts no more than any entry it keeps. */
  lemma TopLeavesSmaller(c: Counter, limit: nat)
    ensures forall e, i :: e in multiset(c) - multiset(Top(c, limit)) && 0 <= i < |Top(c, limit)|
              ==> e.n <= Top(c, limit)[i].n
  {
    var t := Top(c, limit);
    SortedPrefixTop(c, ByCountDesc, limit);
    forall e, i | e in multiset(c) - multiset(t) && 0 <= i < |t| ensures e.n <= t[i].n {
      assert !Below(ByCountDesc(e), ByCountDesc(t[i]));
    }
  }

  /** The top series of a proper counter is proper. */
  lemma TopProper(c: Counter, limit: nat)
    requires Proper(c)
    ensures Proper(Top(c, limit))
  {
    var r := SortBy(c, ByCountDesc);
    SortedProper(c, ByCountDesc);
    assert forall i :: 0 <= i < |Top(c, limit)| ==> Top(c, limit)[i] == r[i];
  }

  /** The key of an entry, its identity in a counter object. */
  function KeyOf(e: Entry): string
  {
    e.key
  }

  /** Sorting the entries of a counter object, by any key, keeps it proper. */
  lemma SortedProper(c: Counter, key: Entry -> SortKey)
    requires Proper(c)
    ensures Proper(SortBy(c, key))
  {
    var r := SortBy(c, key);
    SortByUnique(c, key, KeyOf);
    SortByPermutes(c, key);
    forall i | 0 <= i < |r| ensures r[i].n >= 1 {
      assert r[i] in multiset(c);
    }
  }

  /** The loop of every counting chart: one pass over the labels, bumping. */
  method CountEach(xs: seq<string>) returns (c: Counter)
    ensures c == Counts(xs)
    ensures Proper(c) && Total(c) == |xs|
    ensures forall k :: CountOf(c, k) == multiset(xs)[k]
  {
    c := [];
    var i := 0;
    while i < |xs|
      invariant 0 <= i <= |xs|
      invariant c == Counts(xs[..i])
    {
      assert xs[..i + 1][..i] == xs[..i];
      c := Bump(c, xs[i]);
      i := i + 1;
    }
    assert xs[..|xs|] == xs;
    CountsFacts(xs);
  }
}
