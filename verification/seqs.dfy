/** Sequence queries the store performs: find the first match, keep the
    matching documents, and the uniqueness of a key across documents. */
module Seqs {
  import opened Api

  /** Index of the first element satisfying `p`, as `findOne` returns the
      first matching document in store order. */
  function FirstIndex<T>(s: seq<T>, p: T -> bool): (r: Option<nat>)
    ensures r.Some? ==> r.value < |s| && p(s[r.value])
    ensures r.Some? ==> forall j | 0 <= j < r.value :: !p(s[j])
    ensures r.None? <==> forall j | 0 <= j < |s| :: !p(s[j])
    decreases |s|
  {
    if |s| == 0 then None
    else if p(s[0]) then Some(0)
    else
      var k := FirstIndex(s[1..], p);
      if k.None? then None else Some(k.value + 1)
  }

  /** The elements of `s` satisfying `p`, in their original order (see
      `FilterAppend`). */
  function Filter<T(!new)>(s: seq<T>, p: T -> bool): (r: seq<T>)
    ensures |r| <= |s|
    ensures forall x :: x in r <==> x in s && p(x)
    ensures forall x | p(x) :: multiset(r)[x] == multiset(s)[x]
    ensures forall x | !p(x) :: multiset(r)[x] == 0
    decreases |s|
  {
    if |s| == 0 then []
    else
      assert s == [s[0]] + s[1..];
      (if p(s[0]) then [s[0]] else []) + Filter(s[1..], p)
  }

  /** Filtering keeps the original order: it distributes over
      concatenation (and a single element stays exactly when it passes,
      `FilterSingleton`). */
  lemma {:induction false} FilterAppend<T(!new)>(a: seq<T>, b: seq<T>, p: T -> bool)
    ensures Filter(a + b, p) == Filter(a, p) + Filter(b, p)
    decreases |a|
  {
    if |a| == 0 {
      assert a + b == b;
    } else {
      var t := a[1..];
      var h: seq<T> := if p(a[0]) then [a[0]] else [];
      assert a == [a[0]] + t;
      assert a + b == [a[0]] + (t + b);
      calc {
        Filter(a + b, p);
        { FilterCons(a[0], t + b, p); }
        h + Filter(t + b, p);
        { FilterAppend(t, b, p); }
        h + (Filter(t, p) + Filter(b, p));
        (h + Filter(t, p)) + Filter(b, p);
        { FilterCons(a[0], t, p); }
        Filter(a, p) + Filter(b, p);
      }
    }
  }

  /** Filtering a sequence with a head. */
  lemma FilterCons<T(!new)>(x: T, s: seq<T>, p: T -> bool)
    ensures Filter([x] + s, p) == (if p(x) then [x] else []) + Filter(s, p)
  {
    assert ([x] + s)[0] == x;
    assert ([x] + s)[1..] == s;
  }

  /** Filtering changes nothing when every element passes. */
  lemma {:induction false} FilterAllPass<T(!new)>(s: seq<T>, p: T -> bool)
    requires forall x | x in s :: p(x)
    ensures Filter(s, p) == s
    decreases |s|
  {
    if |s| > 0 {
      var t := s[1..];
      assert s == [s[0]] + t;
      FilterCons(s[0], t, p);
      FilterAllPass(t, p);
    }
  }

  /** Filtering out the one failing element between passing runs. */
  lemma FilterCutOut<T(!new)>(a: seq<T>, x: T, b: seq<T>, p: T -> bool)
    requires (forall y | y in a :: p(y)) && !p(x) && (forall y | y in b :: p(y))
    ensures Filter(a + [x] + b, p) == a + b
  {
    calc {
      Filter(a + [x] + b, p);
      { assert a + [x] + b == a + ([x] + b); }
      Filter(a + ([x] + b), p);
      { FilterAppend(a, [x] + b, p); }
      Filter(a, p) + Filter([x] + b, p);
      { FilterCons(x, b, p); }
      Filter(a, p) + Filter(b, p);
      { FilterAllPass(a, p); FilterAllPass(b, p); }
      a + b;
    }
  }

  lemma FilterSingleton<T(!new)>(x: T, p: T -> bool)
    ensures Filter([x], p) == if p(x) then [x] else []
  {
    assert [x][1..] == [];
  }

  /** Applies `f` to every element. */
  function MapSeq<T, U>(s: seq<T>, f: T -> U): (r: seq<U>)
    ensures |r| == |s|
    ensures forall k | 0 <= k < |s| :: r[k] == f(s[k])
  {
    seq(|s|, k requires 0 <= k < |s| => f(s[k]))
  }

  /** No two positions of `s` carry the same key. */
  ghost predicate UniqueBy<T, K>(s: seq<T>, key: T -> K) {
    forall i, j | 0 <= i < j < |s| :: key(s[i]) != key(s[j])
  }

  /** The keys occurring in `s`. */
  ghost function KeySet<T, K>(s: seq<T>, key: T -> K): set<K> {
    set x | x in s :: key(x)
  }

  lemma UniqueByTail<T, K>(s: seq<T>, key: T -> K)
    requires |s| > 0 && UniqueBy(s, key)
    ensures UniqueBy(s[1..], key)
    ensures forall x | x in s[1..] :: key(x) != key(s[0])
  {
    var t := s[1..];
    forall i, j | 0 <= i < j < |t|
      ensures key(t[i]) != key(t[j])
    {
      assert t[i] == s[i + 1] && t[j] == s[j + 1];
    }
    forall x | x in t
      ensures key(x) != key(s[0])
    {
      var k :| 0 <= k < |t| && t[k] == x;
      assert s[k + 1] == x;
    }
  }

  /** Keeping only some documents never introduces a duplicate key. */
  lemma {:induction false} FilterKeepsUniqueBy<T(!new), K>(s: seq<T>, p: T -> bool, key: T -> K)
    requires UniqueBy(s, key)
    ensures UniqueBy(Filter(s, p), key)
    decreases |s|
  {
    if |s| > 0 {
      var t := s[1..];
      UniqueByTail(s, key);
      FilterKeepsUniqueBy(t, p, key);
      var ft := Filter(t, p);
      if p(s[0]) {
        var r := [s[0]] + ft;
        assert Filter(s, p) == r;
        forall i, j | 0 <= i < j < |r|
          ensures key(r[i]) != key(r[j])
        {
          assert r[j] == ft[j - 1];
          if i > 0 {
            assert r[i] == ft[i - 1];
          } else {
            assert r[j] in t;
          }
        }
      } else {
        assert Filter(s, p) == ft;
      }
    }
  }

  /** With unique keys there are exactly as many keys as elements. */
  lemma {:induction false} UniqueKeysCount<T, K>(s: seq<T>, key: T -> K)
    requires UniqueBy(s, key)
    ensures |KeySet(s, key)| == |s|
    decreases |s|
  {
    if |s| > 0 {
      var t := s[1..];
      UniqueByTail(s, key);
      UniqueKeysCount(t, key);
      assert s == [s[0]] + t;
      assert KeySet(s, key) == {key(s[0])} + KeySet(t, key);
      assert key(s[0]) !in KeySet(t, key);
    }
  }

  /** Every element satisfies `p` or not, so the two filters split `s`. */
  lemma {:induction false} FilterSplit<T(!new)>(s: seq<T>, p: T -> bool, q: T -> bool)
    requires forall x :: q(x) == !p(x)
    ensures |Filter(s, p)| + |Filter(s, q)| == |s|
    decreases |s|
  {
    if |s| > 0 {
      FilterSplit(s[1..], p, q);
    }
  }

  /** A filter keeps every element exactly when every element passes it. */
  lemma {:induction false} FilterKeepsAll<T(!new)>(s: seq<T>, p: T -> bool)
    ensures |Filter(s, p)| == |s| <==> forall x | x in s :: p(x)
    decreases |s|
  {
    if |s| > 0 {
      FilterKeepsAll(s[1..], p);
      assert forall x | x in s :: x == s[0] || x in s[1..];
    }
  }

  /** A subset of a finite set is no larger than it. */
  lemma {:induction false} SubsetCard<K>(a: set<K>, b: set<K>)
    requires a <= b
    ensures |a| <= |b|
    decreases |a|
  {
    if a != {} {
      var x :| x in a;
      SubsetCard(a - {x}, b - {x});
    }
  }
}
