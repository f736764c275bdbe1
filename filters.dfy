/** The inline filter controller of both job-list shortcodes: a container
    holds the filter buttons and the job cards; initialisation happens once
    per container, and a click on a button marks it active and shows exactly
    the cards of its category (every card for "all"). */
module Filters {
  import opened Seqs
  import opened Jobs
  import opened Grouping

  /** A card with category `card` is shown under the selection `selected`. */
  predicate Shows(selected: string, card: string) {
    selected == "all" || card == selected
  }

  /** The `active` marks after a click on button `i` of `n`. */
  function ActiveAfter(n: nat, i: nat): (r: seq<bool>)
    ensures |r| == n && forall k :: 0 <= k < n ==> (r[k] <==> k == i)
  {
    seq(n, k => k == i)
  }

  /** Which cards are shown under `selected`. */
  function ShownAfter(selected: string, cards: seq<string>): (r: seq<bool>)
    ensures |r| == |cards| && forall k :: 0 <= k < |cards| ==> (r[k] <==> Shows(selected, cards[k]))
  {
    Map(cards, (card: string) => Shows(selected, card))
  }

  /** How many entries are true. */
  function CountTrue(s: seq<bool>): nat {
    if s == [] then 0 else (if s[0] then 1 else 0) + CountTrue(s[1..])
  }

  class FilterContainer {
    /** The `data-category` of each filter button, in document order. */
    const buttons: seq<string>
    /** The `data-category` of each job card, in document order. */
    const cards: seq<string>
    /** `dataset.initialized`: the click handlers are attached. */
    var initialized: bool
    /** Which buttons carry the `active` class. */
    const active: array<bool>
    /** Which cards are shown. */
    const shown: array<bool>

    ghost predicate Valid()
      reads this
    {
      active.Length == |buttons| && shown.Length == |cards| && active != shown
    }

    /** The rendered markup: the first button, "all", is active, every card
        is shown, and no handler is attached yet. The bar is the state a
        click on its first button leaves. */
    constructor (buttons: seq<string>, cards: seq<string>)
      requires buttons == [] || buttons[0] == "all"
      ensures Valid() && this.buttons == buttons && this.cards == cards && !initialized
      ensures active[..] == ActiveAfter(|buttons|, 0) && shown[..] == ShownAfter("all", cards)
      ensures buttons != [] ==> shown[..] == ShownAfter(buttons[0], cards)
      ensures fresh(active) && fresh(shown)
    {
      this.buttons := buttons;
      this.cards := cards;
      initialized := false;
      active := new bool[|buttons|](k => k == 0);
      shown := new bool[|cards|](k => true);
    }

    /** `initFreshJobFilters` / `initUltraJobs` on this container: the first
        call marks it and attaches the handlers; a later call does nothing. */
    method Init()
      requires Valid()
      modifies this
      ensures Valid() && initialized
      ensures unchanged(active, shown)
    {
      if !initialized {
        initialized := true;
      }
    }

    /** A click on button `i`. Before initialisation no handler is attached
        and nothing changes; afterwards exactly button `i` is active and a
        card is shown exactly when `Shows(buttons[i], card)`. The new state
        depends on `i` alone, so clicking the same button again changes
        nothing. */
    method Click(i: nat)
      requires Valid() && i < |buttons|
      modifies active, shown
      ensures active[..] == if initialized then ActiveAfter(|buttons|, i) else old(active[..])
      ensures shown[..] == if initialized then ShownAfter(buttons[i], cards) else old(shown[..])
    {
      if !initialized {
        return;
      }
      var category := buttons[i];
      for b := 0 to active.Length
        invariant forall k :: 0 <= k < b ==> !active[k]
        invariant shown[..] == old(shown[..])
      {
        active[b] := false;
      }
      active[i] := true;
      for c := 0 to shown.Length
        invariant forall k :: 0 <= k < c ==> (shown[k] <==> Shows(category, cards[k]))
        invariant active[..] == ActiveAfter(|buttons|, i)
      {
        if category == "all" || cards[c] == category {
          shown[c] := true;
        } else {
          shown[c] := false;
        }
      }
    }
  }

  /** `initFreshJobFilters`: only the first `.fresh-jobs-wrapper` of the page
      is initialised. */
  method InitFresh(wrappers: seq<FilterContainer>)
    requires forall k :: 0 <= k < |wrappers| ==> wrappers[k].Valid()
    modifies if wrappers == [] then {} else {wrappers[0]}
    ensures wrappers != [] ==> wrappers[0].initialized
  {
    if wrappers != [] {
      wrappers[0].Init();
    }
  }

  /** `initUltraJobs`: the container is looked up by its id; a missing one is
      left for a later attempt. */
  method InitUltra(page: map<string, FilterContainer>, id: string)
    requires forall k :: k in page ==> page[k].Valid()
    modifies if id in page then {page[id]} else {}
    ensures id in page ==> page[id].initialized
  {
    if id in page {
      page[id].Init();
    }
  }

  // ---------------------------------------------------------------------------
  // Properties

  lemma {:induction false} CountTrueAppend(a: seq<bool>, b: seq<bool>)
    ensures CountTrue(a + b) == CountTrue(a) + CountTrue(b)
    decreases |a|
  {
    if a == [] {
      assert a + b == b;
    } else {
      assert (a + b)[1..] == a[1..] + b;
      CountTrueAppend(a[1..], b);
    }
  }

  /** After a click exactly one button is active. */
  lemma {:induction false} ExactlyOneActive(n: nat, i: nat)
    requires i < n
    ensures CountTrue(ActiveAfter(n, i)) == 1
  {
    var r := ActiveAfter(n, i);
    assert r == r[..i] + [true] + r[i + 1..] by {
      assert r == r[..i] + [true] + r[i + 1..];
    }
    CountTrueAppend(r[..i] + [true], r[i + 1..]);
    CountTrueAppend(r[..i], [true]);
    NoneTrue(r[..i]);
    NoneTrue(r[i + 1..]);
  }

  lemma {:induction false} NoneTrue(s: seq<bool>)
    requires forall k :: 0 <= k < |s| ==> !s[k]
    ensures CountTrue(s) == 0
    decreases |s|
  {
    if s != [] {
      assert forall k :: 0 <= k < |s[1..]| ==> s[1..][k] == s[k + 1];
      NoneTrue(s[1..]);
    }
  }

  /** Under "all" every card is shown; under another category as many cards
      as carry it. */
  lemma {:induction false} ShownCount(selected: string, cards: seq<string>)
    ensures CountTrue(ShownAfter(selected, cards)) == if selected == "all" then |cards| else Count(cards, selected)
    decreases |cards|
  {
    if cards != [] {
      assert ShownAfter(selected, cards)[1..] == ShownAfter(selected, cards[1..]);
      ShownCount(selected, cards[1..]);
    }
  }

  /** On the rendered bar, the number on each button is the number of cards
      that clicking it shows (when no category is itself named "all"). */
  lemma ButtonCountIsShownCount(jobs: seq<JobRecord>, k: nat)
    requires "all" !in Cats(jobs)
    requires k < |FilterButtons(jobs)|
    ensures CountTrue(ShownAfter(FilterButtons(jobs)[k].category, Cats(jobs))) == FilterButtons(jobs)[k].count
  {
    var b := FilterButtons(jobs)[k];
    FilterBarButtons(jobs);
    ShownCount(b.category, Cats(jobs));
    if k > 0 {
      GroupSizeIsCount(jobs, b.category);
    }
  }
}
