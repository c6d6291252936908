/** Python's `sorted` and `list.sort` under a total order: an ordered permutation, of
    which there is only one. */
module Sorting {
  ghost predicate TotalPreorder<T(!new)>(leq: (T, T) -> bool) {
    && (forall x, y :: leq(x, y) || leq(y, x))
    && (forall x, y, z :: leq(x, y) && leq(y, z) ==> leq(x, z))
  }

  ghost predicate TotalOrder<T(!new)>(leq: (T, T) -> bool) {
    TotalPreorder(leq) && forall x, y :: leq(x, y) && leq(y, x) ==> x == y
  }

  ghost predicate Sorted<T>(leq: (T, T) -> bool, s: seq<T>) {
    forall i, j :: 0 <= i < j < |s| ==> leq(s[i], s[j])
  }

  function Insert<T>(leq: (T, T) -> bool, x: T, s: seq<T>): (r: seq<T>)
    ensures |r| == |s| + 1
  {
    if s == [] then [x]
    else if leq(x, s[0]) then [x] + s
    else [s[0]] + Insert(leq, x, s[1..])
  }

  function Sort<T>(leq: (T, T) -> bool, s: seq<T>): (r: seq<T>)
    ensures |r| == |s|
  {
    if s == [] then [] else Insert(leq, s[0], Sort(leq, s[1..]))
  }

  lemma {:induction false} InsertKeeps<T>(leq: (T, T) -> bool, x: T, s: seq<T>)
    ensures multiset(Insert(leq, x, s)) == multiset(s) + multiset{x}
  {
    if s != [] {
      InsertKeeps(leq, x, s[1..]);
      assert s == [s[0]] + s[1..];
    }
  }

  lemma {:induction false} SortKeeps<T>(leq: (T, T) -> bool, s: seq<T>)
    ensures multiset(Sort(leq, s)) == multiset(s)
  {
    if s != [] {
      SortKeeps(leq, s[1..]);
      InsertKeeps(leq, s[0], Sort(leq, s[1..]));
      assert s == [s[0]] + s[1..];
    }
  }

  lemma {:induction false} InsertSorted<T(!new)>(leq: (T, T) -> bool, x: T, s: seq<T>)
    requires TotalPreorder(leq) && Sorted(leq, s)
    ensures Sorted(leq, Insert(leq, x, s))
  {
    if s != [] && !leq(x, s[0]) {
      var rest := Insert(leq, x, s[1..]);
      InsertSorted(leq, x, s[1..]);
      InsertKeeps(leq, x, s[1..]);
      forall j | 0 <= j < |rest|
        ensures leq(s[0], rest[j])
      {
        assert rest[j] in multiset(rest);
        assert rest[j] == x || rest[j] in s[1..];
      }
    }
  }

  lemma {:induction false} SortSorts<T(!new)>(leq: (T, T) -> bool, s: seq<T>)
    requires TotalPreorder(leq)
    ensures Sorted(leq, Sort(leq, s))
  {
    if s != [] {
      SortSorts(leq, s[1..]);
      InsertSorted(leq, s[0], Sort(leq, s[1..]));
    }
  }

  lemma FirstIsLeast<T(!new)>(leq: (T, T) -> bool, s: seq<T>, t: seq<T>)
    requires TotalOrder(leq) && Sorted(leq, s) && multiset(s) == multiset(t) && s != [] && t != []
    ensures leq(s[0], t[0])
  {
    assert t[0] in multiset(t);
    var i :| 0 <= i < |s| && s[i] == t[0];
  }

  lemma TailMultiset<T>(s: seq<T>)
    requires s != []
    ensures multiset(s[1..]) == multiset(s) - multiset{s[0]} && s == [s[0]] + s[1..]
  {
    assert s == [s[0]] + s[1..];
  }

  lemma {:induction false} SortedUnique<T(!new)>(leq: (T, T) -> bool, s: seq<T>, t: seq<T>)
    requires TotalOrder(leq) && Sorted(leq, s) && Sorted(leq, t) && multiset(s) == multiset(t)
    ensures s == t
  {
    assert |s| == |multiset(s)| == |multiset(t)| == |t|;
    if s != [] {
      FirstIsLeast(leq, s, t);
      FirstIsLeast(leq, t, s);
      TailMultiset(s);
      TailMultiset(t);
      SortedUnique(leq, s[1..], t[1..]);
    }
  }

  /** Sorting forgets exactly the order. */
  lemma SortCanonical<T(!new)>(leq: (T, T) -> bool, s: seq<T>, t: seq<T>)
    requires TotalOrder(leq)
    ensures Sort(leq, s) == Sort(leq, t) <==> multiset(s) == multiset(t)
  {
    SortKeeps(leq, s);
    SortKeeps(leq, t);
    if multiset(s) == multiset(t) {
      SortSorts(leq, s);
      SortSorts(leq, t);
      SortedUnique(leq, Sort(leq, s), Sort(leq, t));
    }
  }

  // ----- sorting by a key

  /** Elements compared by their keys. */
  function ByKey<T, K>(leq: (K, K) -> bool, key: T -> K): (T, T) -> bool {
    (x, y) => leq(key(x), key(y))
  }

  /** The elements with a given key, in their order. */
  function Under<T, K(==)>(key: T -> K, k: K, s: seq<T>): (r: seq<T>) {
    if s == [] then []
    else (if key(s[0]) == k then [s[0]] else []) + Under(key, k, s[1..])
  }

  /** The lists hold the same elements in the same order under every key. */
  ghost predicate AgreeUnder<T(!new), K(!new)>(key: T -> K, s: seq<T>, t: seq<T>) {
    forall k :: Under(key, k, s) == Under(key, k, t)
  }

  lemma ByKeyIsPreorder<T(!new), K(!new)>(leq: (K, K) -> bool, key: T -> K)
    requires TotalOrder(leq)
    ensures TotalPreorder(ByKey(leq, key))
  {
    var pre := ByKey(leq, key);
    forall x, y, z | pre(x, y) && pre(y, z)
      ensures pre(x, z)
    {
    }
  }

  lemma UnderFirst<T, K>(key: T -> K, k: K, x: T, s: seq<T>)
    ensures Under(key, k, [x] + s) == (if key(x) == k then [x] else []) + Under(key, k, s)
  {
    assert ([x] + s)[1..] == s;
  }

  lemma {:induction false} InsertUnder<T(!new), K(!new)>(leq: (K, K) -> bool, key: T -> K, x: T, s: seq<T>, k: K)
    requires TotalOrder(leq)
    ensures Under(key, k, Insert(ByKey(leq, key), x, s)) == Under(key, k, [x] + s)
  {
    UnderFirst(key, k, x, s);
    if s != [] && !ByKey(leq, key)(x, s[0]) {
      InsertUnder(leq, key, x, s[1..], k);
      UnderFirst(key, k, x, s[1..]);
      UnderFirst(key, k, s[0], Insert(ByKey(leq, key), x, s[1..]));
      assert key(x) != key(s[0]);
    }
  }

  /** Sorting by a key is stable. */
  lemma {:induction false} SortUnder<T(!new), K(!new)>(leq: (K, K) -> bool, key: T -> K, s: seq<T>, k: K)
    requires TotalOrder(leq)
    ensures Under(key, k, Sort(ByKey(leq, key), s)) == Under(key, k, s)
  {
    if s != [] {
      SortUnder(leq, key, s[1..], k);
      InsertUnder(leq, key, s[0], Sort(ByKey(leq, key), s[1..]), k);
      UnderFirst(key, k, s[0], Sort(ByKey(leq, key), s[1..]));
    }
  }

  lemma {:induction false} UnderHas<T, K>(key: T -> K, k: K, s: seq<T>)
    ensures Under(key, k, s) == [] <==> forall i :: 0 <= i < |s| ==> key(s[i]) != k
  {
    if s != [] {
      UnderHas(key, k, s[1..]);
      assert forall i :: 0 < i < |s| ==> s[i] == s[1..][i - 1];
    }
  }

  /** In lists sorted by key that agree under every key, the first elements have one key. */
  lemma FirstKey<T(!new), K(!new)>(leq: (K, K) -> bool, key: T -> K, s: seq<T>, t: seq<T>)
    requires TotalOrder(leq) && Sorted(ByKey(leq, key), t) && s != [] && t != []
    requires Under(key, key(s[0]), s) == Under(key, key(s[0]), t)
    ensures leq(key(t[0]), key(s[0]))
  {
    UnderHas(key, key(s[0]), s);
    UnderHas(key, key(s[0]), t);
    var i :| 0 <= i < |t| && key(t[i]) == key(s[0]);
    if i > 0 {
      assert ByKey(leq, key)(t[0], t[i]);
    }
  }

  lemma SameFirst<T(!new), K(!new)>(leq: (K, K) -> bool, key: T -> K, s: seq<T>, t: seq<T>)
    requires TotalOrder(leq) && Sorted(ByKey(leq, key), s) && Sorted(ByKey(leq, key), t) && s != [] && t != []
    requires AgreeUnder(key, s, t)
    ensures s[0] == t[0]
  {
    FirstKey(leq, key, s, t);
    FirstKey(leq, key, t, s);
    assert Under(key, key(s[0]), s)[0] == s[0] && Under(key, key(s[0]), t)[0] == t[0];
  }

  lemma TailsAgree<T(!new), K(!new)>(key: T -> K, x: T, s: seq<T>, t: seq<T>)
    requires AgreeUnder(key, [x] + s, [x] + t)
    ensures AgreeUnder(key, s, t)
  {
    forall k
      ensures Under(key, k, s) == Under(key, k, t)
    {
      UnderRest(key, k, x, s, t);
    }
  }

  lemma BothOrNeither<T(!new), K(!new)>(key: T -> K, s: seq<T>, t: seq<T>)
    requires AgreeUnder(key, s, t)
    ensures s == [] <==> t == []
  {
    if s != [] {
      UnderHas(key, key(s[0]), s);
      UnderHas(key, key(s[0]), t);
    }
    if t != [] {
      UnderHas(key, key(t[0]), s);
      UnderHas(key, key(t[0]), t);
    }
  }

  lemma {:induction false} SortedByKeyUnique<T(!new), K(!new)>(leq: (K, K) -> bool, key: T -> K, s: seq<T>, t: seq<T>)
    requires TotalOrder(leq) && Sorted(ByKey(leq, key), s) && Sorted(ByKey(leq, key), t) && AgreeUnder(key, s, t)
    ensures s == t
  {
    BothOrNeither(key, s, t);
    if s != [] {
      SameFirst(leq, key, s, t);
      assert s == [s[0]] + s[1..] && t == [s[0]] + t[1..];
      TailsAgree(key, s[0], s[1..], t[1..]);
      SortedByKeyUnique(leq, key, s[1..], t[1..]);
    }
  }

  lemma UnderRest<T, K>(key: T -> K, k: K, x: T, s: seq<T>, t: seq<T>)
    ensures Under(key, k, [x] + s) == Under(key, k, [x] + t) <==> Under(key, k, s) == Under(key, k, t)
  {
    UnderFirst(key, k, x, s);
    UnderFirst(key, k, x, t);
    var first := if key(x) == k then [x] else [];
    assert (first + Under(key, k, s))[|first|..] == Under(key, k, s);
    assert (first + Under(key, k, t))[|first|..] == Under(key, k, t);
  }

  lemma SortedAgree<T(!new), K(!new)>(leq: (K, K) -> bool, key: T -> K, s: seq<T>, t: seq<T>, k: K)
    requires TotalOrder(leq) && Sort(ByKey(leq, key), s) == Sort(ByKey(leq, key), t)
    ensures Under(key, k, s) == Under(key, k, t)
  {
    SortUnder(leq, key, s, k);
    SortUnder(leq, key, t, k);
  }

  lemma AgreeingSorted<T(!new), K(!new)>(leq: (K, K) -> bool, key: T -> K, s: seq<T>, t: seq<T>, u: seq<T>, v: seq<T>)
    requires TotalOrder(leq) && AgreeUnder(key, s, t)
    requires u == Sort(ByKey(leq, key), s) && v == Sort(ByKey(leq, key), t)
    ensures u == v
  {
    ByKeyIsPreorder(leq, key);
    SortSorts(ByKey(leq, key), s);
    SortSorts(ByKey(leq, key), t);
    forall k
      ensures Under(key, k, u) == Under(key, k, v)
    {
      SortUnder(leq, key, s, k);
      SortUnder(leq, key, t, k);
    }
    SortedByKeyUnique(leq, key, u, v);
  }

  /** Sorting by a key forgets the order of elements with different keys, and nothing else. */
  lemma StableSortCanonical<T(!new), K(!new)>(leq: (K, K) -> bool, key: T -> K, s: seq<T>, t: seq<T>)
    requires TotalOrder(leq)
    ensures Sort(ByKey(leq, key), s) == Sort(ByKey(leq, key), t) <==> AgreeUnder(key, s, t)
  {
    if Sort(ByKey(leq, key), s) == Sort(ByKey(leq, key), t) {
      forall k
        ensures Under(key, k, s) == Under(key, k, t)
      {
        SortedAgree(leq, key, s, t, k);
      }
    }
    if AgreeUnder(key, s, t) {
      AgreeingSorted(leq, key, s, t, Sort(ByKey(leq, key), s), Sort(ByKey(leq, key), t));
    }
  }

  lemma {:induction false} UnderCount<T, K>(key: T -> K, k: K, s: seq<T>, x: T)
    ensures multiset(Under(key, k, s))[x] == if key(x) == k then multiset(s)[x] else 0
  {
    if s != [] {
      UnderCount(key, k, s[1..], x);
      assert s == [s[0]] + s[1..];
    }
  }

  lemma {:induction false} AllAlike<T>(s: seq<T>, x: T)
    requires forall i :: 0 <= i < |s| ==> s[i] == x
    ensures |s| == multiset(s)[x]
  {
    if s != [] {
      AllAlike(s[1..], x);
      assert s == [s[0]] + s[1..];
    }
  }
}
