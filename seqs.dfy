/** Generic sequence helpers: filtering, first match, counting, taking a prefix. */
module Seqs {
  import opened Wrappers

  /** The elements of `s` satisfying `f`, in order (PHP's `array_filter`,
      the DOM's `querySelectorAll` over a document-order list). */
  function Filter<T>(s: seq<T>, f: T -> bool): (r: seq<T>)
    ensures |r| <= |s|
    ensures forall i :: 0 <= i < |r| ==> r[i] in s && f(r[i])
    ensures forall i :: 0 <= i < |s| && f(s[i]) ==> s[i] in r
    decreases |s|
  {
    if s == [] then []
    else
      var rest := Filter(s[1..], f);
      assert forall i :: 1 <= i < |s| ==> s[i] == s[1..][i - 1];
      if f(s[0]) then [s[0]] + rest else rest
  }

  lemma {:induction false} FilterAppend<T>(a: seq<T>, b: seq<T>, f: T -> bool)
    ensures Filter(a + b, f) == Filter(a, f) + Filter(b, f)
    decreases |a|
  {
    if a == [] {
      assert a + b == b;
    } else {
      assert (a + b)[0] == a[0];
      assert (a + b)[1..] == a[1..] + b;
      FilterAppend(a[1..], b, f);
    }
  }

  /** Nothing passes a filter that no element satisfies. */
  lemma {:induction false} FilterNone<T>(s: seq<T>, f: T -> bool)
    requires forall i :: 0 <= i < |s| ==> !f(s[i])
    ensures Filter(s, f) == []
    decreases |s|
  {
    if s != [] {
      assert forall i :: 0 <= i < |s[1..]| ==> s[1..][i] == s[i + 1];
      FilterNone(s[1..], f);
    }
  }

  /** The first element of `s` satisfying `f` (the DOM's `querySelector`). */
  function FirstWhere<T>(s: seq<T>, f: T -> bool): (r: Option<T>)
    ensures r.None? <==> (forall i :: 0 <= i < |s| ==> !f(s[i]))
    ensures r.Some? ==>
              exists i :: 0 <= i < |s| && s[i] == r.value && f(s[i]) && forall j :: 0 <= j < i ==> !f(s[j])
    decreases |s|
  {
    if s == [] then None
    else if f(s[0]) then Some(s[0])
    else
      var r := FirstWhere(s[1..], f);
      assert forall i :: 1 <= i < |s| ==> s[i] == s[1..][i - 1];
      r
  }

  /** The first match is the head of all matches. */
  lemma {:induction false} FirstWhereIsFilterHead<T>(s: seq<T>, f: T -> bool)
    ensures FirstWhere(s, f) == if Filter(s, f) == [] then None else Some(Filter(s, f)[0])
    decreases |s|
  {
    if s != [] && !f(s[0]) {
      FirstWhereIsFilterHead(s[1..], f);
    }
  }

  /** How many times `x` occurs in `s`. */
  function Count<T(==)>(s: seq<T>, x: T): (n: nat)
    ensures n <= |s|
    ensures n > 0 <==> x in s
  {
    if s == [] then 0 else (if s[0] == x then 1 else 0) + Count(s[1..], x)
  }

  lemma {:induction false} CountAppend<T>(a: seq<T>, b: seq<T>, x: T)
    ensures Count(a + b, x) == Count(a, x) + Count(b, x)
    decreases |a|
  {
    if a == [] {
      assert a + b == b;
    } else {
      assert (a + b)[0] == a[0];
      assert (a + b)[1..] == a[1..] + b;
      CountAppend(a[1..], b, x);
    }
  }

  /** The first `n` elements, or all of them when there are fewer (PHP's
      `array_slice($a, 0, $n)`). */
  function Take<T>(s: seq<T>, n: nat): (r: seq<T>)
    ensures |r| == if |s| <= n then |s| else n
    ensures r == s[..|r|]
  {
    if |s| <= n then s else s[..n]
  }

  predicate IncreasingBy<T>(s: seq<T>, key: T -> int) {
    forall i, j :: 0 <= i < j < |s| ==> key(s[i]) < key(s[j])
  }

  /** Filtering keeps elements in their relative order: a key that increases
      along `s` increases along `Filter(s, f)`. */
  lemma {:induction false} FilterKeepsOrder<T>(s: seq<T>, f: T -> bool, key: T -> int)
    requires IncreasingBy(s, key)
    ensures IncreasingBy(Filter(s, f), key)
    decreases |s|
  {
    if s != [] {
      var t := s[1..];
      assert IncreasingBy(t, key) by {
        forall i, j | 0 <= i < j < |t| ensures key(t[i]) < key(t[j]) {
          assert t[i] == s[i + 1] && t[j] == s[j + 1];
        }
      }
      FilterKeepsOrder(t, f, key);
      if f(s[0]) {
        HeadBelowFilteredTail(s, f, key);
        PrependIncreasing(s[0], Filter(t, f), key);
      }
    }
  }

  lemma HeadBelowFilteredTail<T>(s: seq<T>, f: T -> bool, key: T -> int)
    requires s != [] && IncreasingBy(s, key)
    ensures var rest := Filter(s[1..], f); forall k :: 0 <= k < |rest| ==> key(s[0]) < key(rest[k])
  {
    var t := s[1..];
    var rest := Filter(t, f);
    forall k | 0 <= k < |rest| ensures key(s[0]) < key(rest[k]) {
      var m :| 0 <= m < |t| && t[m] == rest[k];
      assert t[m] == s[m + 1];
    }
  }

  lemma PrependIncreasing<T>(x: T, rest: seq<T>, key: T -> int)
    requires IncreasingBy(rest, key) && forall k :: 0 <= k < |rest| ==> key(x) < key(rest[k])
    ensures IncreasingBy([x] + rest, key)
  {
    var r := [x] + rest;
    forall i, j | 0 <= i < j < |r| ensures key(r[i]) < key(r[j]) {
      assert r[j] == rest[j - 1];
      if i > 0 {
        assert r[i] == rest[i - 1];
      }
    }
  }

  lemma AppendIncreasing<T>(rest: seq<T>, x: T, key: T -> int)
    requires IncreasingBy(rest, key) && forall k :: 0 <= k < |rest| ==> key(rest[k]) < key(x)
    ensures IncreasingBy(rest + [x], key)
  {
    var r := rest + [x];
    forall i, j | 0 <= i < j < |r| ensures key(r[i]) < key(r[j]) {
      assert r[i] == rest[i];
      if j < |rest| {
        assert r[j] == rest[j];
      }
    }
  }

  /** Strictly increasing keys leave no room for a repeated element. */
  lemma IncreasingHasNoDuplicates<T>(s: seq<T>, key: T -> int)
    requires IncreasingBy(s, key)
    ensures NoDuplicates(s)
  {
  }

  /** Filters that agree on the elements of `s` give the same result. */
  lemma {:induction false} FilterCongruent<T>(s: seq<T>, f: T -> bool, g: T -> bool)
    requires forall i :: 0 <= i < |s| ==> f(s[i]) == g(s[i])
    ensures Filter(s, f) == Filter(s, g)
    decreases |s|
  {
    if s != [] {
      assert forall i :: 0 <= i < |s[1..]| ==> s[1..][i] == s[i + 1];
      FilterCongruent(s[1..], f, g);
    }
  }

  /** No element occurs twice. */
  predicate NoDuplicates<T(==)>(s: seq<T>) {
    forall i, j :: 0 <= i < j < |s| ==> s[i] != s[j]
  }

  /** The first non-empty list, or the empty list when all are empty. */
  function FirstNonEmpty<T>(lists: seq<seq<T>>): (r: seq<T>)
    ensures r == [] <==> forall k :: 0 <= k < |lists| ==> lists[k] == []
    ensures r != [] ==>
      exists k :: 0 <= k < |lists| && r == lists[k] && forall j :: 0 <= j < k ==> lists[j] == []
  {
    if lists == [] then []
    else if lists[0] != [] then lists[0]
    else
      var r := FirstNonEmpty(lists[1..]);
      assert r != [] ==> exists k :: 1 <= k < |lists| && r == lists[k] && forall j :: 0 <= j < k ==> lists[j] == [];
      r
  }

  /** Filtering a sequence extended by one element. */
  lemma FilterSnoc<T>(s: seq<T>, x: T, f: T -> bool)
    ensures Filter(s + [x], f) == Filter(s, f) + (if f(x) then [x] else [])
  {
    FilterAppend(s, [x], f);
    assert Filter([x], f) == if f(x) then [x] else [];
  }

  /** The image of every element under `g`, in order. */
  function Map<A, B>(s: seq<A>, g: A -> B): (r: seq<B>)
    ensures |r| == |s| && forall i :: 0 <= i < |s| ==> r[i] == g(s[i])
  {
    seq(|s|, i requires 0 <= i < |s| => g(s[i]))
  }

  /** A loop that builds `g(x)` for each `x` of `s` and appends it when it passes `keep`. */
  method MapFilter<A, B>(s: seq<A>, g: A -> B, keep: B -> bool) returns (r: seq<B>)
    ensures r == Filter(Map(s, g), keep)
  {
    ghost var images := Map(s, g);
    r := [];
    for i := 0 to |s|
      invariant r == Filter(images[..i], keep)
    {
      var x := g(s[i]);
      assert images[..i + 1] == images[..i] + [images[i]];
      FilterSnoc(images[..i], images[i], keep);
      if keep(x) {
        r := r + [x];
      }
    }
    assert images[..|s|] == images;
  }

  /** A loop that builds `g(x)` for each `x` of `s`, in order. */
  method MapEach<A, B>(s: seq<A>, g: A -> B) returns (r: seq<B>)
    ensures r == Map(s, g)
  {
    r := [];
    for i := 0 to |s|
      invariant |r| == i && forall k :: 0 <= k < i ==> r[k] == g(s[k])
    {
      r := r + [g(s[i])];
    }
  }

  /** The lists of `ss` one after another. */
  function Concat<T>(ss: seq<seq<T>>): seq<T>
    decreases |ss|
  {
    if ss == [] then [] else ss[0] + Concat(ss[1..])
  }

  lemma {:induction false} ConcatAppend<T>(a: seq<seq<T>>, b: seq<seq<T>>)
    ensures Concat(a + b) == Concat(a) + Concat(b)
    decreases |a|
  {
    if a == [] {
      assert a + b == b;
    } else {
      assert (a + b)[0] == a[0];
      assert (a + b)[1..] == a[1..] + b;
      ConcatAppend(a[1..], b);
    }
  }

  /** The concatenation is empty exactly when every list is. */
  lemma {:induction false} ConcatEmpty<T>(ss: seq<seq<T>>)
    ensures Concat(ss) == [] <==> forall k :: 0 <= k < |ss| ==> ss[k] == []
    decreases |ss|
  {
    if ss != [] {
      ConcatEmpty(ss[1..]);
      assert forall k :: 1 <= k < |ss| ==> ss[k] == ss[1..][k - 1];
    }
  }

  /** List `k` sits between the lists before and after it. */
  lemma ConcatAt<T>(ss: seq<seq<T>>, k: nat)
    requires k < |ss|
    ensures Concat(ss) == Concat(ss[..k]) + ss[k] + Concat(ss[k + 1..])
  {
    assert ss == ss[..k] + ss[k..];
    ConcatAppend(ss[..k], ss[k..]);
    assert ss[k..][1..] == ss[k + 1..];
  }

  /** For each `x` of `s`, the images under `g` of the elements of `inner(x)`,
      all in one list. */
  function FlatMap<A, B, C>(s: seq<A>, inner: A -> seq<B>, g: B -> C): seq<C> {
    Concat(Map(s, (x: A) => Map(inner(x), g)))
  }

  /** The part of element `k` sits between those of the elements before and after it. */
  lemma FlatMapAt<A, B, C>(s: seq<A>, inner: A -> seq<B>, g: B -> C, k: nat)
    requires k < |s|
    ensures FlatMap(s, inner, g) == FlatMap(s[..k], inner, g) + Map(inner(s[k]), g) + FlatMap(s[k + 1..], inner, g)
  {
    var lists := Map(s, (x: A) => Map(inner(x), g));
    ConcatAt(lists, k);
    assert lists[..k] == Map(s[..k], (x: A) => Map(inner(x), g));
    assert lists[k + 1..] == Map(s[k + 1..], (x: A) => Map(inner(x), g));
  }

  /** Nothing comes out exactly when every inner list is empty. */
  lemma FlatMapEmpty<A, B, C>(s: seq<A>, inner: A -> seq<B>, g: B -> C)
    ensures FlatMap(s, inner, g) == [] <==> forall k :: 0 <= k < |s| ==> inner(s[k]) == []
  {
    ConcatEmpty(Map(s, (x: A) => Map(inner(x), g)));
  }

  /** A nested loop: for each `x` of `s`, for each `y` of `inner(x)`, append `g(y)`. */
  method FlatMapEach<A, B, C>(s: seq<A>, inner: A -> seq<B>, g: B -> C) returns (r: seq<C>)
    ensures r == FlatMap(s, inner, g)
  {
    ghost var lists := Map(s, (x: A) => Map(inner(x), g));
    r := [];
    for i := 0 to |s|
      invariant r == Concat(lists[..i])
    {
      var list := inner(s[i]);
      ghost var before := r;
      for j := 0 to |list|
        invariant |r| == |before| + j && r[..|before|] == before
        invariant forall k :: 0 <= k < j ==> r[|before| + k] == g(list[k])
      {
        r := r + [g(list[j])];
      }
      assert r == before + lists[i];
      ConcatAppend(lists[..i], [lists[i]]);
      assert Concat([lists[i]]) == lists[i] + Concat([]);
      assert lists[..i + 1] == lists[..i] + [lists[i]];
    }
    assert lists[..|s|] == lists;
  }

  /** Replace every element of `a` by its image under `f`, in place. */
  method UpdateEach<T>(a: array<T>, f: T -> T)
    modifies a
    ensures forall i :: 0 <= i < a.Length ==> a[i] == f(old(a[i]))
  {
    for i := 0 to a.Length
      invariant forall k :: 0 <= k < i ==> a[k] == f(old(a[k]))
      invariant forall k :: i <= k < a.Length ==> a[k] == old(a[k])
    {
      a[i] := f(a[i]);
    }
  }
}
