/** The array operations the services rely on (`filter`, `map`, `slice`,
    `find`, `findIndex`, `new Set(...)`, Prisma's `skip`/`take`), each
    defined once over sequences together with the facts the services need. */
module Sequences {
  import opened Common

  function Min(a: int, b: int): int { if a <= b then a else b }

  function Max(a: int, b: int): int { if a >= b then a else b }

  predicate NoDuplicates<T(==)>(s: seq<T>) {
    forall i, j :: 0 <= i < j < |s| ==> s[i] != s[j]
  }

  /** The negation of a predicate, as one function value. */
  function Not<T>(p: T -> bool): T -> bool {
    x => !p(x)
  }

  /** `s.map(f)`. */
  function Map<T, U>(s: seq<T>, f: T -> U): (r: seq<U>)
    ensures |r| == |s|
    ensures forall i :: 0 <= i < |s| ==> r[i] == f(s[i])
  {
    seq(|s|, i requires 0 <= i < |s| => f(s[i]))
  }

  /** `s.filter(p)`: the elements that satisfy `p`, in their original order. */
  function Filter<T(!new)>(s: seq<T>, p: T -> bool): (r: seq<T>)
    ensures |r| <= |s|
    ensures forall x :: x in r <==> x in s && p(x)
  {
    if |s| == 0 then []
    else if p(s[0]) then [s[0]] + Filter(s[1..], p)
    else Filter(s[1..], p)
  }

  /** Filtering distributes over concatenation, so a loop that filters
      element by element computes the same list. */
  lemma {:induction false} FilterConcat<T(!new)>(a: seq<T>, b: seq<T>, p: T -> bool)
    ensures Filter(a + b, p) == Filter(a, p) + Filter(b, p)
  {
    if |a| > 0 {
      assert (a + b)[1..] == a[1..] + b;
      FilterConcat(a[1..], b, p);
    } else {
      assert a + b == b;
    }
  }

  /** The filter of a list is that of its front, followed by the last
      element exactly when it passes. */
  lemma FilterLast<T(!new)>(s: seq<T>, p: T -> bool)
    requires |s| > 0
    ensures Filter(s, p)
         == if p(s[|s| - 1]) then Filter(s[..|s| - 1], p) + [s[|s| - 1]] else Filter(s[..|s| - 1], p)
  {
    var init, x := s[..|s| - 1], s[|s| - 1];
    assert s == init + [x];
    FilterConcat(init, [x], p);
    assert [x][1..] == [];
  }

  /** Every element goes to exactly one side of a filter and its negation:
      nothing is lost and nothing is counted twice. */
  lemma {:induction false} FilterPartition<T(!new)>(s: seq<T>, p: T -> bool)
    ensures |Filter(s, p)| + |Filter(s, Not(p))| == |s|
  {
    if |s| > 0 {
      FilterPartition(s[1..], p);
    }
  }

  lemma {:induction false} FilterNoDuplicates<T(!new)>(s: seq<T>, p: T -> bool)
    requires NoDuplicates(s)
    ensures NoDuplicates(Filter(s, p))
  {
    if |s| > 0 {
      assert NoDuplicates(s[1..]) by {
        forall i, j | 0 <= i < j < |s[1..]| ensures s[1..][i] != s[1..][j] {
          assert s[1..][i] == s[i + 1] && s[1..][j] == s[j + 1];
        }
      }
      FilterNoDuplicates(s[1..], p);
      var rest := Filter(s[1..], p);
      if p(s[0]) {
        assert s[0] !in s[1..] by {
          forall k | 0 <= k < |s[1..]| ensures s[1..][k] != s[0] {
            assert s[1..][k] == s[k + 1];
          }
        }
        var r := [s[0]] + rest;
        forall i, j | 0 <= i < j < |r| ensures r[i] != r[j] {
          if i == 0 {
            assert r[j] == rest[j - 1] && rest[j - 1] in rest;
          } else {
            assert r[i] == rest[i - 1] && r[j] == rest[j - 1];
          }
        }
      }
    }
  }

  /** Prisma's `skip`/`take` and JavaScript's `slice(skip, skip + take)`:
      at most `take` elements, starting after the first `skip`. */
  function Page<T>(s: seq<T>, skip: nat, take: nat): (r: seq<T>)
    ensures |r| == Min(take, Max(0, |s| - skip))
    ensures forall i :: 0 <= i < |r| ==> r[i] == s[skip + i]
  {
    if skip >= |s| then [] else s[skip..Min(|s|, skip + take)]
  }

  /** A page holds only elements of the list. */
  lemma PageWithin<T>(s: seq<T>, skip: nat, take: nat)
    ensures forall x :: x in Page(s, skip, take) ==> x in s
  {
    var r := Page(s, skip, take);
    forall x | x in r ensures x in s {
      var k :| 0 <= k < |r| && r[k] == x;
      assert s[skip + k] == x;
    }
  }

  /** Two consecutive pages are the page that spans both. */
  lemma PageSplit<T>(s: seq<T>, skip: nat, a: nat, b: nat)
    ensures Page(s, skip, a) + Page(s, skip + a, b) == Page(s, skip, a + b)
  {
    var left, right, whole := Page(s, skip, a), Page(s, skip + a, b), Page(s, skip, a + b);
    assert |left + right| == |whole|;
    forall i | 0 <= i < |whole| ensures (left + right)[i] == whole[i] {
      if i < |left| {
        assert (left + right)[i] == s[skip + i];
      } else {
        assert (left + right)[i] == right[i - |left|] == s[skip + a + (i - |left|)];
      }
    }
  }

  /** `s.findIndex(p)` (and Prisma's `findFirst` / `findUnique`): the first
      position whose element satisfies `p`, or none. */
  function IndexWhere<T>(s: seq<T>, p: T -> bool): (r: Option<nat>)
    ensures r.None? <==> forall i :: 0 <= i < |s| ==> !p(s[i])
    ensures r.Some? ==> r.value < |s| && p(s[r.value])
    ensures r.Some? ==> forall j :: 0 <= j < r.value ==> !p(s[j])
  {
    if |s| == 0 then None
    else if p(s[0]) then Some(0)
    else match IndexWhere(s[1..], p)
      case None => None
      case Some(i) => Some(i + 1)
  }

  /** A search only depends on which positions satisfy the predicate: it is
      unaffected by updates that keep the searched-for column. */
  lemma {:induction false} IndexWhereSamePattern<T, U>(s: seq<T>, t: seq<U>, p: T -> bool, q: U -> bool)
    requires |s| == |t|
    requires forall i :: 0 <= i < |s| ==> p(s[i]) == q(t[i])
    ensures IndexWhere(s, p) == IndexWhere(t, q)
  {
    if |s| > 0 && !p(s[0]) {
      IndexWhereSamePattern(s[1..], t[1..], p, q);
    }
  }

  /** The keys that occur in `s`. */
  function KeySet<T(==), K(==)>(s: seq<T>, key: T -> K): set<K> {
    set x | x in s :: key(x)
  }

  /** One more element adds exactly its key. */
  lemma KeySetSnoc<T, K>(s: seq<T>, x: T, key: T -> K)
    ensures KeySet(s + [x], key) == KeySet(s, key) + {key(x)}
  {
    assert forall y :: y in s + [x] <==> y in s || y == x;
  }

  /** The keys listed by `s.map(key)` are exactly the key set, and they are
      listed once each when `key` tells the elements apart. */
  lemma MapKeys<T, K>(s: seq<T>, key: T -> K)
    ensures forall k :: k in Map(s, key) <==> k in KeySet(s, key)
    ensures UniqueKeys(s, key) ==> NoDuplicates(Map(s, key))
  {
    var m := Map(s, key);
    forall k | k in m ensures k in KeySet(s, key) {
      var i :| 0 <= i < |m| && m[i] == k;
      assert s[i] in s;
    }
    forall k | k in KeySet(s, key) ensures k in m {
      var x :| x in s && key(x) == k;
      var i :| 0 <= i < |s| && s[i] == x;
      assert m[i] == k;
    }
  }

  /** `[...new Set(s)]` and the `Map`-based deduplication: keeps the first
      element of every key, in the order keys first appear. */
  function DedupBy<T(==,!new), K(==)>(s: seq<T>, key: T -> K): (r: seq<T>)
    ensures forall x :: x in r ==> x in s
    ensures KeySet(r, key) == KeySet(s, key)
    ensures forall i, j :: 0 <= i < j < |r| ==> key(r[i]) != key(r[j])
  {
    if |s| == 0 then []
    else
      var init, x := s[..|s| - 1], s[|s| - 1];
      assert s == init + [x];
      var d := DedupBy(init, key);
      assert KeySet(s, key) == KeySet(init, key) + {key(x)};
      if key(x) in KeySet(d, key) then d
      else
        assert KeySet(d + [x], key) == KeySet(d, key) + {key(x)};
        d + [x]
  }

  /** One more element: it is appended exactly when its key is new. */
  lemma DedupBySnoc<T(!new), K>(s: seq<T>, x: T, key: T -> K)
    ensures DedupBy(s + [x], key)
         == if key(x) in KeySet(DedupBy(s, key), key) then DedupBy(s, key) else DedupBy(s, key) + [x]
  {
    assert (s + [x])[..|s + [x]| - 1] == s;
  }

  /** Deduplicating a prefix gives a prefix of the deduplicated list: output
      order is the order in which keys first occur. */
  lemma {:induction false} DedupByPrefix<T(!new), K>(s: seq<T>, key: T -> K, n: nat)
    requires n <= |s|
    ensures DedupBy(s[..n], key) <= DedupBy(s, key)
    decreases |s| - n
  {
    if n < |s| {
      var init := s[..|s| - 1];
      assert s[..n] == init[..n];
      DedupByPrefix(init, key, n);
    } else {
      assert s[..n] == s;
    }
  }

  /** Every element `DedupBy` keeps is the first one of its key: it sits at a
      position before which no element has that key. */
  lemma {:induction false} DedupByKeepsFirst<T(!new), K>(s: seq<T>, key: T -> K, x: T)
    requires x in DedupBy(s, key)
    ensures exists i :: 0 <= i < |s| && s[i] == x && forall j :: 0 <= j < i ==> key(s[j]) != key(x)
  {
    var init, last := s[..|s| - 1], s[|s| - 1];
    var d := DedupBy(init, key);
    if x in d {
      DedupByKeepsFirst(init, key, x);
      var i :| 0 <= i < |init| && init[i] == x && forall j :: 0 <= j < i ==> key(init[j]) != key(x);
      assert s[i] == x;
    } else {
      assert x == last && key(last) !in KeySet(init, key);
      forall j | 0 <= j < |s| - 1 ensures key(s[j]) != key(x) {
        assert s[j] == init[j] && init[j] in init;
      }
    }
  }

  /** `DedupBy` keeps the order of first occurrences: of two kept elements,
      the later one's key first appears after an occurrence of the earlier. */
  lemma {:induction false} DedupByOrder<T(!new), K>(s: seq<T>, key: T -> K, i: nat, j: nat)
    requires i < j < |DedupBy(s, key)|
    ensures exists p, q :: 0 <= p < q < |s| && s[p] == DedupBy(s, key)[i] && s[q] == DedupBy(s, key)[j]
              && forall m :: 0 <= m < q ==> key(s[m]) != key(s[q])
  {
    var init, last := s[..|s| - 1], s[|s| - 1];
    var d := DedupBy(init, key);
    var r := DedupBy(s, key);
    if j < |d| {
      DedupByOrder(init, key, i, j);
      var p, q :| 0 <= p < q < |init| && init[p] == d[i] && init[q] == d[j]
                  && forall m :: 0 <= m < q ==> key(init[m]) != key(init[q]);
      assert s[p] == init[p] && s[q] == init[q];
      assert forall m :: 0 <= m < q ==> s[m] == init[m];
    } else {
      assert r == d + [last] && r[j] == last && r[i] == d[i];
      assert d[i] in d;
      DedupByKeepsFirst(init, key, d[i]);
      var p :| 0 <= p < |init| && init[p] == d[i] && forall m :: 0 <= m < p ==> key(init[m]) != key(d[i]);
      assert s[p] == init[p];
      forall m | 0 <= m < |s| - 1 ensures key(s[m]) != key(last) {
        assert s[m] == init[m] && init[m] in init;
      }
    }
  }

  /** `key` tells the elements of `s` apart. */
  predicate UniqueKeys<T, K(==)>(s: seq<T>, key: T -> K) {
    forall i, j :: 0 <= i < j < |s| ==> key(s[i]) != key(s[j])
  }

  /** Prisma's `where: { id: { in: keys } }` as a filter predicate. */
  function KeyIn<T, K>(key: T -> K, keys: set<K>): T -> bool {
    x => key(x) in keys
  }

  /** A filter that no element passes is empty. */
  lemma {:induction false} FilterNone<T(!new)>(s: seq<T>, p: T -> bool)
    requires forall i :: 0 <= i < |s| ==> !p(s[i])
    ensures Filter(s, p) == []
  {
    if |s| > 0 {
      FilterNone(s[1..], p);
    }
  }

  /** A filter only depends on the verdicts of its predicate. */
  lemma {:induction false} FilterCongruent<T(!new)>(s: seq<T>, p: T -> bool, q: T -> bool)
    requires forall i :: 0 <= i < |s| ==> p(s[i]) == q(s[i])
    ensures Filter(s, p) == Filter(s, q)
  {
    if |s| > 0 {
      FilterCongruent(s[1..], p, q);
    }
  }

  /** Selecting rows with distinct keys by a set of keys yields no more rows
      than there are keys in the set. */
  lemma {:induction false} FilterByKeysBound<T(!new), K>(s: seq<T>, key: T -> K, keys: set<K>)
    requires UniqueKeys(s, key)
    ensures |Filter(s, KeyIn(key, keys))| <= |keys|
  {
    if |s| > 0 {
      var tail := s[1..];
      assert UniqueKeys(tail, key) by {
        forall i, j | 0 <= i < j < |tail| ensures key(tail[i]) != key(tail[j]) {
          assert tail[i] == s[i + 1] && tail[j] == s[j + 1];
        }
      }
      var k := key(s[0]);
      if k in keys {
        forall i | 0 <= i < |tail| ensures KeyIn(key, keys)(tail[i]) == KeyIn(key, keys - {k})(tail[i]) {
          assert tail[i] == s[i + 1];
        }
        FilterCongruent(tail, KeyIn(key, keys), KeyIn(key, keys - {k}));
        FilterByKeysBound(tail, key, keys - {k});
      } else {
        FilterByKeysBound(tail, key, keys);
      }
    }
  }

  /** A list has at most as many distinct keys as elements. */
  lemma {:induction false} KeySetBound<T, K>(s: seq<T>, key: T -> K)
    ensures |KeySet(s, key)| <= |s|
  {
    if |s| > 0 {
      KeySetBound(s[1..], key);
      assert KeySet(s, key) == {key(s[0])} + KeySet(s[1..], key) by {
        assert s == [s[0]] + s[1..];
      }
    }
  }

  /** Without a key function: duplicates compared by value. */
  function Identity<T>(x: T): T { x }

  lemma {:induction false} NoDuplicatesMultiplicity<T>(s: seq<T>)
    ensures NoDuplicates(s) <==> forall x :: multiset(s)[x] <= 1
  {
    if |s| > 0 {
      var h, t := s[0], s[1..];
      assert s == [h] + t;
      NoDuplicatesMultiplicity(t);
      if NoDuplicates(s) {
        assert NoDuplicates(t) by {
          forall i, j | 0 <= i < j < |t| ensures t[i] != t[j] {
            assert t[i] == s[i + 1] && t[j] == s[j + 1];
          }
        }
        assert h !in t by {
          forall k | 0 <= k < |t| ensures t[k] != h {
            assert t[k] == s[k + 1];
          }
        }
        assert multiset(t)[h] == 0;
      }
      if forall x :: multiset(s)[x] <= 1 {
        assert forall x :: multiset(t)[x] <= 1 by {
          forall x ensures multiset(t)[x] <= 1 {
            assert multiset(s)[x] == multiset([h])[x] + multiset(t)[x];
          }
        }
        assert multiset(s)[h] == 1 + multiset(t)[h];
        assert h !in t;
        forall i, j | 0 <= i < j < |s| ensures s[i] != s[j] {
          if i == 0 {
            assert s[j] == t[j - 1] && t[j - 1] in t;
          } else {
            assert s[i] == t[i - 1] && s[j] == t[j - 1];
          }
        }
      }
    }
  }

  /** Reordering a duplicate-free list cannot create duplicates. */
  lemma PermutationKeepsNoDuplicates<T>(s: seq<T>, t: seq<T>)
    requires multiset(s) == multiset(t)
    requires NoDuplicates(s)
    ensures NoDuplicates(t)
  {
    NoDuplicatesMultiplicity(s);
    NoDuplicatesMultiplicity(t);
  }

  /** A page of a duplicate-free list is duplicate-free. */
  lemma PageNoDuplicates<T>(s: seq<T>, skip: nat, take: nat)
    requires NoDuplicates(s)
    ensures NoDuplicates(Page(s, skip, take))
  {
    var r := Page(s, skip, take);
    forall i, j | 0 <= i < j < |r| ensures r[i] != r[j] {
      assert r[i] == s[skip + i] && r[j] == s[skip + j];
    }
  }
}
