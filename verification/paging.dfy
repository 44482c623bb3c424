/** Page arithmetic shared by the listing handlers: clamping of the query
    numbers, `Math.ceil(total / limit)`, the `$skip`/`$limit` window of an
    aggregation, and JavaScript's `Array.prototype.slice`. */
module Paging {

  function Min(a: int, b: int): int { if a <= b then a else b }
  function Max(a: int, b: int): int { if a >= b then a else b }

  /** `Math.max(1, n)` on an integer query value. */
  function AtLeastOne(n: int): int {
    if n < 1 then 1 else n
  }

  /** `Math.ceil(total / limit)`: the least number of pages of `limit`
      items that hold `total` items. */
  function PageCount(total: nat, limit: int): (r: nat)
    requires limit >= 1
    ensures total <= r * limit
    ensures r == 0 || (r - 1) * limit < total
  {
    var q := (total + limit - 1) / limit;
    var m := (total + limit - 1) % limit;
    assert q * limit + m == total + limit - 1;
    assert (q - 1) * limit == q * limit - limit;
    q
  }

  lemma MulMono(a: int, b: int, l: int)
    requires a <= b && l >= 0
    ensures a * l <= b * l
  {
    assert b * l - a * l == (b - a) * l;
  }

  /** `$skip: skip` followed by `$limit: limit`. */
  function Window<T>(s: seq<T>, skip: nat, limit: nat): (r: seq<T>)
    ensures |r| <= limit
    ensures |r| == if skip >= |s| then 0 else Min(limit, |s| - skip)
    ensures forall k | 0 <= k < |r| :: r[k] == s[skip + k]
  {
    if skip >= |s| then []
    else if skip + limit >= |s| then s[skip..]
    else s[skip..skip + limit]
  }

  /** Page `page` (1-based) of `limit` items: skip `(page - 1) * limit`. */
  function Page<T>(s: seq<T>, page: int, limit: int): seq<T>
    requires page >= 1 && limit >= 1
  {
    MulMono(0, page - 1, limit);
    Window(s, (page - 1) * limit, limit)
  }

  /** How many of `total` items page `page` holds: all `limit` of them,
      fewer on the last page, none past it. */
  function PageLength(total: nat, page: int, limit: int): nat
    requires page >= 1 && limit >= 1
  {
    var skip := (page - 1) * limit;
    if skip >= total then 0 else Min(limit, total - skip)
  }

  /** Item `k` of page `page` is item `(page - 1) * limit + k` of the whole. */
  lemma PageElements<T>(s: seq<T>, page: int, limit: int)
    requires page >= 1 && limit >= 1
    ensures |Page(s, page, limit)| <= limit
    ensures |Page(s, page, limit)| == PageLength(|s|, page, limit)
    ensures forall k | 0 <= k < |Page(s, page, limit)| ::
      (page - 1) * limit + k < |s| && Page(s, page, limit)[k] == s[(page - 1) * limit + k]
  {
    MulMono(0, page - 1, limit);
  }

  /** A page is non-empty exactly when its number is at most the page
      count, so "empty page" and "page past the end" coincide. */
  lemma PageNonEmptyIff<T>(s: seq<T>, page: int, limit: int)
    requires page >= 1 && limit >= 1
    ensures |Page(s, page, limit)| > 0 <==> page <= PageCount(|s|, limit)
  {
    var n := PageCount(|s|, limit);
    if page <= n {
      MulMono(page - 1, n - 1, limit);
    } else {
      MulMono(n, page - 1, limit);
    }
  }

  /** Pages 1..n laid end to end. */
  function PagesUpTo<T>(s: seq<T>, limit: int, n: nat): seq<T>
    requires limit >= 1
  {
    if n == 0 then [] else PagesUpTo(s, limit, n - 1) + Page(s, n, limit)
  }

  /** The first `n` pages are exactly the first `n * limit` items: no item
      is skipped and none is repeated. */
  lemma {:induction false} PagesUpToIsPrefix<T>(s: seq<T>, limit: int, n: nat)
    requires limit >= 1
    ensures PagesUpTo(s, limit, n) == s[..Min(n * limit, |s|)]
  {
    if n > 0 {
      PagesUpToIsPrefix(s, limit, n - 1);
      MulMono(0, n - 1, limit);
      assert n * limit == (n - 1) * limit + limit;
    }
  }

  /** Reading every page in order reproduces the whole sequence once. */
  lemma PagesCover<T>(s: seq<T>, limit: int)
    requires limit >= 1
    ensures PagesUpTo(s, limit, PageCount(|s|, limit)) == s
  {
    PagesUpToIsPrefix(s, limit, PageCount(|s|, limit));
  }

  ghost predicate Distinct<T>(s: seq<T>) {
    forall i, j | 0 <= i < j < |s| :: s[i] != s[j]
  }

  /** Two different pages of a sequence without repeats share no item. */
  lemma PagesDisjoint<T>(s: seq<T>, limit: int, p: int, q: int)
    requires Distinct(s)
    requires 1 <= p < q && limit >= 1
    ensures forall x | x in Page(s, p, limit) :: x !in Page(s, q, limit)
  {
    var a := Page(s, p, limit);
    var b := Page(s, q, limit);
    MulMono(0, p - 1, limit);
    MulMono(p, q - 1, limit);
    assert p * limit == (p - 1) * limit + limit;
    forall x | x in a
      ensures x !in b
    {
      var i :| 0 <= i < |a| && a[i] == x;
      assert a[i] == s[(p - 1) * limit + i];
      forall j | 0 <= j < |b|
        ensures b[j] != x
      {
        assert b[j] == s[(q - 1) * limit + j];
      }
    }
  }

  /** Resolves a `slice` bound: a negative value counts back from the end,
      and the result is clipped to `[0, len]`. */
  function SliceBound(rel: int, len: nat): nat {
    if rel < 0 then (if len + rel < 0 then 0 else len + rel)
    else if rel > len then len
    else rel
  }

  /** `s.slice(start, end)` for integer arguments. */
  function JsSlice<T>(s: seq<T>, start: int, end: int): seq<T>
  {
    var k := SliceBound(start, |s|);
    var f := SliceBound(end, |s|);
    if k < f then s[k..f] else []
  }

  /** `slice` with in-range, ordered bounds is the plain subsequence; past
      the end it is clipped; a negative bound counts back from the end. */
  lemma JsSliceProperties<T>(s: seq<T>, a: int, b: int)
    ensures 0 <= a <= b ==> JsSlice(s, a, b) == s[Min(a, |s|)..Min(b, |s|)]
    ensures 0 <= b <= a ==> JsSlice(s, a, b) == []
    ensures -|s| <= a < 0 ==> JsSlice(s, a, b) == JsSlice(s, a + |s|, b)
    ensures -|s| <= b < 0 ==> JsSlice(s, a, b) == JsSlice(s, a, b + |s|)
    ensures a <= -|s| ==> JsSlice(s, a, b) == JsSlice(s, 0, b)
    ensures a <= b ==> |JsSlice(s, a, b)| <= b - a
  {
  }
}
