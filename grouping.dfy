/** The category groups behind the filter bar of the two job-list shortcodes
    (`comeet_job_slider_shortcode` and `ultra_stable_jobs_shortcode`): jobs
    are grouped by category in order of first appearance, groups with fewer
    than three jobs are dropped, at most five groups are kept, and the bar is
    an "all" button followed by one button per kept group. */
module Grouping {
  import opened Wrappers
  import opened Seqs
  import opened Jobs

  const MinGroupSize: nat := 3
  const MaxGroups: nat := 5

  /** `$job['category'] ?? 'Other'`: a missing category counts as "Other". */
  function CategoryOf(job: JobRecord): string {
    job.category.GetOr("Other")
  }

  /** The category of every job, in job order (also the cards' `data-category`). */
  function Cats(jobs: seq<JobRecord>): (r: seq<string>)
    ensures |r| == |jobs| && forall i :: 0 <= i < |jobs| ==> r[i] == CategoryOf(jobs[i])
  {
    Map(jobs, CategoryOf)
  }

  /** The distinct elements of `s` in order of first appearance (the key
      order of a PHP array filled by `$a[$k][] = ...`). */
  function FirstAppearance<K(==,!new)>(s: seq<K>): (r: seq<K>)
    ensures forall x :: x in r <==> x in s
  {
    if s == [] then []
    else
      var p := FirstAppearance(s[..|s| - 1]);
      assert s == s[..|s| - 1] + [s[|s| - 1]];
      if s[|s| - 1] in p then p else p + [s[|s| - 1]]
  }

  /** A new element goes last; a repeated one changes nothing. */
  lemma FirstAppearanceSnoc<K(!new)>(s: seq<K>, x: K)
    ensures FirstAppearance(s + [x]) == var p := FirstAppearance(s); if x in p then p else p + [x]
  {
    assert (s + [x])[..|s|] == s;
  }

  /** The elements of `s` whose key is `k`, in order. */
  function WithKey<T, K(==)>(s: seq<T>, key: T -> K, k: K): seq<T> {
    Filter(s, x => key(x) == k)
  }

  /** One more element joins exactly the group of its own key. */
  lemma WithKeySnoc<T, K>(s: seq<T>, x: T, key: T -> K)
    ensures forall k :: WithKey(s + [x], key, k) == WithKey(s, key, k) + (if key(x) == k then [x] else [])
  {
    forall k ensures WithKey(s + [x], key, k) == WithKey(s, key, k) + (if key(x) == k then [x] else []) {
      FilterSnoc(s, x, y => key(y) == k);
    }
  }

  /** `order` and `groups` are the grouping of `s` by `key`. */
  ghost predicate Grouped<T, K(!new)>(s: seq<T>, key: T -> K, order: seq<K>, groups: map<K, seq<T>>) {
    && order == FirstAppearance(Map(s, key))
    && (forall k :: k in groups <==> k in order)
    && (forall k :: k in groups ==> groups[k] == WithKey(s, key, k))
  }

  /** The key order after `$a[$k][] = $x`: a new key is appended. */
  function NextOrder<K(==)>(order: seq<K>, k: K): seq<K> {
    if k in order then order else order + [k]
  }

  /** `if (!isset($a[$k])) $a[$k] = []; $a[$k][] = $x;` */
  function NextGroups<T, K(==)>(groups: map<K, seq<T>>, k: K, x: T): map<K, seq<T>> {
    var g := if k in groups then groups else groups[k := []];
    g[k := g[k] + [x]]
  }

  lemma OrderSnoc<T, K(!new)>(s: seq<T>, x: T, key: T -> K, order: seq<K>)
    requires order == FirstAppearance(Map(s, key))
    ensures NextOrder(order, key(x)) == FirstAppearance(Map(s + [x], key))
  {
    assert Map(s + [x], key) == Map(s, key) + [key(x)];
    FirstAppearanceSnoc(Map(s, key), key(x));
  }

  lemma GroupsSnoc<T, K>(s: seq<T>, x: T, key: T -> K, groups: map<K, seq<T>>)
    requires forall k :: k in groups ==> groups[k] == WithKey(s, key, k)
    requires forall k :: k !in groups ==> WithKey(s, key, k) == []
    ensures var g := NextGroups(groups, key(x), x);
      forall k :: k in g ==> g[k] == WithKey(s + [x], key, k)
  {
    WithKeySnoc(s, x, key);
    var g := NextGroups(groups, key(x), x);
    forall k | k in g ensures g[k] == WithKey(s + [x], key, k) {
      if k == key(x) {
        assert g[k] == (if k in groups then groups[k] else []) + [x];
      } else {
        assert g[k] == groups[k];
      }
    }
  }

  /** No element has a key that does not occur among the keys. */
  lemma WithKeyEmpty<T, K(!new)>(s: seq<T>, key: T -> K, k: K)
    requires k !in Map(s, key)
    ensures WithKey(s, key, k) == []
  {
    forall i | 0 <= i < |s| ensures key(s[i]) != k {
      assert Map(s, key)[i] == key(s[i]);
    }
    FilterNone(s, x => key(x) == k);
  }

  /** One iteration of the grouping loop keeps `Grouped`. */
  lemma GroupedSnoc<T, K(!new)>(s: seq<T>, i: nat, key: T -> K, order: seq<K>, groups: map<K, seq<T>>)
    requires i < |s| && Grouped(s[..i], key, order, groups)
    ensures Grouped(s[..i + 1], key, NextOrder(order, key(s[i])), NextGroups(groups, key(s[i]), s[i]))
  {
    var t := s[..i];
    assert s[..i + 1] == t + [s[i]];
    OrderSnoc(t, s[i], key, order);
    forall k | k !in groups ensures WithKey(t, key, k) == [] {
      WithKeyEmpty(t, key, k);
    }
    GroupsSnoc(t, s[i], key, groups);
  }

  /** The grouping loop of both shortcodes: `foreach ($jobs as $job)
      $categories[$category][] = $job;`, with the PHP array's key order kept
      in `order`: every key once, in order of first appearance, and under
      each key exactly the elements with that key, in order. */
  method GroupBy<T, K(==,!new)>(s: seq<T>, key: T -> K) returns (order: seq<K>, groups: map<K, seq<T>>)
    ensures order == FirstAppearance(Map(s, key))
    ensures forall k :: k in groups <==> k in order
    ensures forall k :: k in groups ==> groups[k] == WithKey(s, key, k)
  {
    order := [];
    groups := map[];
    for i := 0 to |s|
      invariant Grouped(s[..i], key, order, groups)
    {
      var k := key(s[i]);
      GroupedSnoc(s, i, key, order, groups);
      if k !in groups {
        order := order + [k];
        groups := groups[k := []];
      }
      groups := groups[k := groups[k] + [s[i]]];
    }
    assert s[..|s|] == s;
  }

  /** Position of the first occurrence of `x` in `s`. */
  function FirstIndex(s: seq<string>, x: string): (i: nat)
    requires x in s
    ensures i < |s| && s[i] == x && x !in s[..i]
  {
    if s[0] == x then 0
    else
      var j := FirstIndex(s[1..], x);
      assert s[..j + 1] == [s[0]] + s[1..][..j];
      j + 1
  }

  /** The first-appearance rank of `x` in `s` (`|s|` when absent). */
  function Rank(s: seq<string>, x: string): int {
    if x in s then FirstIndex(s, x) else |s|
  }

  /** The jobs of category `c`, in job order. */
  function JobsIn(jobs: seq<JobRecord>, c: string): seq<JobRecord> {
    WithKey(jobs, CategoryOf, c)
  }

  function GroupSize(jobs: seq<JobRecord>, c: string): nat {
    |JobsIn(jobs, c)|
  }

  /** `array_slice(array_filter($categories, count >= 3), 0, 5)`: the kept groups in order. */
  function Kept(jobs: seq<JobRecord>): seq<string> {
    Take(Filter(FirstAppearance(Cats(jobs)), (c: string) => GroupSize(jobs, c) >= MinGroupSize), MaxGroups)
  }

  /** A filter button: its `data-category` and the count shown on it. */
  datatype Button = Button(category: string, count: nat)

  /** The bar for the kept groups `kept`: nothing when there are none,
      otherwise "all" with `total`, then each kept group with its size. */
  function Bar(kept: seq<string>, size: string -> nat, total: nat): seq<Button> {
    if kept == [] then []
    else [Button("all", total)] + Map(kept, (c: string) => Button(c, size(c)))
  }

  /** The filter bar of the shortcodes. */
  function FilterButtons(jobs: seq<JobRecord>): seq<Button> {
    Bar(Kept(jobs), (c: string) => GroupSize(jobs, c), |jobs|)
  }

  // ---------------------------------------------------------------------------
  // The filter bar, as the shortcodes build it

  /** `array_filter($categories, fn($jobs) => count($jobs) >= 3)` over the grouping. */
  function LargeGroups(order: seq<string>, groups: map<string, seq<JobRecord>>): seq<string> {
    Filter(order, (c: string) => c in groups && |groups[c]| >= MinGroupSize)
  }

  /** Filtering and slicing the grouping gives the kept categories. */
  lemma KeptFromGroups(jobs: seq<JobRecord>, order: seq<string>, groups: map<string, seq<JobRecord>>)
    requires Grouped(jobs, CategoryOf, order, groups)
    ensures Take(LargeGroups(order, groups), MaxGroups) == Kept(jobs)
    ensures forall c :: c in Kept(jobs) ==> c in groups && |groups[c]| == GroupSize(jobs, c)
  {
    FilterCongruent(order, (c: string) => c in groups && |groups[c]| >= MinGroupSize,
                    (c: string) => GroupSize(jobs, c) >= MinGroupSize);
  }

  /** Sizes that agree on the kept groups give the same bar. */
  lemma BarCongruent(kept: seq<string>, size: string -> nat, size': string -> nat, total: nat)
    requires forall k :: 0 <= k < |kept| ==> size(kept[k]) == size'(kept[k])
    ensures Bar(kept, size, total) == Bar(kept, size', total)
  {
  }

  /** The button loop: "all" first, then one button per kept group. */
  method EmitButtons(kept: seq<string>, size: string -> nat, total: nat) returns (buttons: seq<Button>)
    ensures buttons == Bar(kept, size, total)
  {
    buttons := [];
    if kept != [] {
      buttons := [Button("all", total)];
      for k := 0 to |kept|
        invariant buttons == [Button("all", total)] + Map(kept[..k], (c: string) => Button(c, size(c)))
      {
        assert kept[..k + 1] == kept[..k] + [kept[k]];
        buttons := buttons + [Button(kept[k], size(kept[k]))];
      }
      assert kept[..|kept|] == kept;
    }
  }

  /** The count printed on a button: the size of the category's group. */
  function GroupCounts(groups: map<string, seq<JobRecord>>): string -> nat {
    (c: string) => if c in groups then |groups[c]| else 0
  }

  /** The bar emitted from the grouping is the filter bar of the jobs. */
  lemma BarFromGroups(jobs: seq<JobRecord>, order: seq<string>, groups: map<string, seq<JobRecord>>)
    requires Grouped(jobs, CategoryOf, order, groups)
    ensures Bar(Take(LargeGroups(order, groups), MaxGroups), GroupCounts(groups), |jobs|) == FilterButtons(jobs)
  {
    KeptFromGroups(jobs, order, groups);
    BarCongruent(Kept(jobs), GroupCounts(groups), (c: string) => GroupSize(jobs, c), |jobs|);
  }

  /** The shortcode's filter bar and cards: group the jobs, keep the large
      groups, then emit the buttons. */
  method BuildFilterBar(jobs: seq<JobRecord>) returns (buttons: seq<Button>, cards: seq<string>)
    ensures buttons == FilterButtons(jobs)
    ensures cards == Cats(jobs)
  {
    var order, groups := GroupBy(jobs, CategoryOf);
    var kept := Take(LargeGroups(order, groups), MaxGroups);
    buttons := EmitButtons(kept, GroupCounts(groups), |jobs|);
    BarFromGroups(jobs, order, groups);
    cards := Cats(jobs);
  }

  // ---------------------------------------------------------------------------
  // Properties

  /** The group of `c` has as many jobs as `c` occurs among the categories. */
  lemma {:induction false} GroupSizeIsCount(jobs: seq<JobRecord>, c: string)
    ensures GroupSize(jobs, c) == Count(Cats(jobs), c)
    decreases |jobs|
  {
    if jobs != [] {
      assert Cats(jobs)[1..] == Cats(jobs[1..]);
      GroupSizeIsCount(jobs[1..], c);
    }
  }

  /** The rank of an element of a prefix is its rank in the whole sequence. */
  lemma FirstIndexOfPrefix(s: seq<string>, n: nat, x: string)
    requires n <= |s| && x in s[..n]
    ensures FirstIndex(s, x) == FirstIndex(s[..n], x)
  {
    var i := FirstIndex(s[..n], x);
    assert s[..i] == s[..n][..i];
    FirstIndexUnique(s, x, i);
  }

  lemma FirstIndexUnique(s: seq<string>, x: string, i: nat)
    requires i < |s| && s[i] == x && x !in s[..i]
    ensures FirstIndex(s, x) == i
  {
  }

  /** First appearance order: the first occurrences of the listed elements
      come in increasing order, so no element is listed twice. */
  lemma {:induction false} FirstAppearanceOrdered(s: seq<string>)
    ensures IncreasingBy(FirstAppearance(s), (x: string) => Rank(s, x))
    decreases |s|
  {
    if s != [] {
      var n := |s| - 1;
      var p := s[..n];
      FirstAppearanceOrdered(p);
      var fp := FirstAppearance(p);
      assert IncreasingBy(fp, (x: string) => Rank(s, x)) by {
        forall k | 0 <= k < |fp| ensures Rank(s, fp[k]) == Rank(p, fp[k]) {
          assert fp[k] in p;
          FirstIndexOfPrefix(s, n, fp[k]);
        }
      }
      if s[n] !in fp {
        assert s[n] !in s[..n];
        FirstIndexUnique(s, s[n], n);
        forall k | 0 <= k < |fp| ensures Rank(s, fp[k]) < Rank(s, s[n]) {
          assert fp[k] in p;
          FirstIndexOfPrefix(s, n, fp[k]);
        }
        AppendIncreasing(fp, s[n], (x: string) => Rank(s, x));
      }
    }
  }

  /** No category is listed twice in first-appearance order. */
  lemma FirstAppearanceDistinct(s: seq<string>)
    ensures NoDuplicates(FirstAppearance(s))
  {
    FirstAppearanceOrdered(s);
    IncreasingHasNoDuplicates(FirstAppearance(s), (x: string) => Rank(s, x));
  }

  /** The kept groups: at most five, each of at least three jobs, each a
      category that occurs, no category twice, in first-appearance order. */
  lemma KeptGroups(jobs: seq<JobRecord>)
    ensures var kept := Kept(jobs);
      && |kept| <= MaxGroups
      && (forall k :: 0 <= k < |kept| ==> kept[k] in Cats(jobs) && GroupSize(jobs, kept[k]) >= MinGroupSize)
      && IncreasingBy(kept, (x: string) => Rank(Cats(jobs), x))
      && NoDuplicates(kept)
  {
    var cats := Cats(jobs);
    var large := Filter(FirstAppearance(cats), (c: string) => GroupSize(jobs, c) >= MinGroupSize);
    var kept := Kept(jobs);
    FirstAppearanceOrdered(cats);
    FilterKeepsOrder(FirstAppearance(cats), (c: string) => GroupSize(jobs, c) >= MinGroupSize,
                     (x: string) => Rank(cats, x));
    assert kept == large[..|kept|];
    forall k | 0 <= k < |kept|
      ensures kept[k] in cats && GroupSize(jobs, kept[k]) >= MinGroupSize
    {
      assert kept[k] == large[k];
    }
    assert IncreasingBy(kept, (x: string) => Rank(cats, x)) by {
      forall i, j | 0 <= i < j < |kept| ensures Rank(cats, kept[i]) < Rank(cats, kept[j]) {
        assert kept[i] == large[i] && kept[j] == large[j];
      }
    }
    IncreasingHasNoDuplicates(kept, (x: string) => Rank(cats, x));
  }

  /** A category with at least three jobs is left out only when five groups
      are already kept, all of which appear before it. */
  lemma LargeGroupLeftOut(jobs: seq<JobRecord>, c: string)
    requires c in Cats(jobs) && GroupSize(jobs, c) >= MinGroupSize && c !in Kept(jobs)
    ensures |Kept(jobs)| == MaxGroups
    ensures forall k :: 0 <= k < |Kept(jobs)| ==> Rank(Cats(jobs), Kept(jobs)[k]) < Rank(Cats(jobs), c)
  {
    var cats := Cats(jobs);
    var fa := FirstAppearance(cats);
    var large := Filter(fa, (c: string) => GroupSize(jobs, c) >= MinGroupSize);
    var kept := Kept(jobs);
    var m :| 0 <= m < |fa| && fa[m] == c;
    assert c in large;
    var q :| 0 <= q < |large| && large[q] == c;
    assert kept == large[..|kept|];
    assert q >= |kept| by {
      if q < |kept| {
        assert false;
      }
    }
    FirstAppearanceOrdered(cats);
    FilterKeepsOrder(fa, (c: string) => GroupSize(jobs, c) >= MinGroupSize, (x: string) => Rank(cats, x));
    forall k | 0 <= k < |kept| ensures Rank(cats, kept[k]) < Rank(cats, c) {
      assert kept[k] == large[k];
    }
  }

  /** The bar is shown exactly when some category has at least three jobs. */
  lemma FilterBarShown(jobs: seq<JobRecord>)
    ensures FilterButtons(jobs) != [] <==> exists c :: c in Cats(jobs) && GroupSize(jobs, c) >= MinGroupSize
  {
    var cats := Cats(jobs);
    var fa := FirstAppearance(cats);
    var large := Filter(fa, (c: string) => GroupSize(jobs, c) >= MinGroupSize);
    KeptGroups(jobs);
    if c :| c in cats && GroupSize(jobs, c) >= MinGroupSize {
      var m :| 0 <= m < |fa| && fa[m] == c;
      assert c in large;
    }
    if Kept(jobs) != [] {
      assert Kept(jobs)[0] in cats;
    }
  }

  /** The bar starts with "all" and the number of jobs; every other button
      names a kept group in order and shows its size, at least three. */
  lemma FilterBarButtons(jobs: seq<JobRecord>)
    ensures var buttons := FilterButtons(jobs);
      && (buttons != [] ==> buttons[0] == Button("all", |jobs|) && |buttons| == |Kept(jobs)| + 1)
      && forall k :: 1 <= k < |buttons| ==>
           buttons[k] == Button(Kept(jobs)[k - 1], GroupSize(jobs, Kept(jobs)[k - 1]))
           && buttons[k].count >= MinGroupSize
  {
    KeptGroups(jobs);
  }
}
