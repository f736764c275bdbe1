/** The front-end slider (assets/comeet-slider.js): which links count as
    usable, how a slide's title, meta line and call-to-action are derived
    from a job item, the synthetic click sequence of the fallback CTA, how
    (item, anchor) pairs are collected from the job-list roots, and the
    rebuild of the host: carousel and navigation first, originals hidden. */
module Slides {
  import opened Wrappers
  import opened Text
  import opened Seqs
  import opened Dom

  // ---------------------------------------------------------------------------
  // Links

  /** JavaScript's `x || y` on attribute values: `null` and "" are falsy. */
  function JsOr(x: Option<string>, y: Option<string>): Option<string> {
    if x.Some? && x.value != "" then x else y
  }

  predicate Truthy(x: Option<string>) {
    x.Some? && x.value != ""
  }

  /** The attributes that may carry a job link, in the order they are tried. */
  const HrefAttributes: seq<string> := ["href", "data-url", "data-href"]

  /** `a.getAttribute('href') || a.getAttribute('data-url') || a.getAttribute('data-href')`. */
  function RawHref(a: Node): Option<string> {
    JsOr(JsOr(GetAttribute(a, "href"), GetAttribute(a, "data-url")), GetAttribute(a, "data-href"))
  }

  /** The trimmed candidate that `hasGoodHref` inspects (`|| ''` for none). */
  function CandidateHref(a: Node): string {
    JsTrim(RawHref(a).GetOr(""))
  }

  /** `hasGoodHref(a)`: an anchor is present and its candidate link is not
      empty, not "#" and does not start with "javascript". */
  predicate HasGoodHref(a: Option<Node>) {
    && a.Some?
    && var href := CandidateHref(a.value);
       href != "" && href != "#" && !IsPrefix("javascript", href)
  }

  /** The raw link is the value of the first of `href`, `data-url`,
      `data-href` that is present and non-empty; there is none exactly when
      all three are absent or empty. */
  lemma RawHrefIsFirstTruthy(a: Node)
    ensures !Truthy(RawHref(a)) <==> forall k :: 0 <= k < |HrefAttributes| ==> !Truthy(GetAttribute(a, HrefAttributes[k]))
    ensures Truthy(RawHref(a)) ==>
      exists k :: 0 <= k < |HrefAttributes| && RawHref(a) == GetAttribute(a, HrefAttributes[k])
        && forall j :: 0 <= j < k ==> !Truthy(GetAttribute(a, HrefAttributes[j]))
  {
    if Truthy(GetAttribute(a, "href")) {
      assert RawHref(a) == GetAttribute(a, HrefAttributes[0]);
    } else if Truthy(GetAttribute(a, "data-url")) {
      assert RawHref(a) == GetAttribute(a, HrefAttributes[1]);
    } else {
      assert RawHref(a) == GetAttribute(a, HrefAttributes[2]);
    }
  }

  /** A usable link: what `hasGoodHref` accepted is the trimmed raw link,
      which is therefore present and non-empty. */
  lemma GoodHrefHasRawLink(a: Node)
    requires HasGoodHref(Some(a))
    ensures Truthy(RawHref(a)) && JsTrim(RawHref(a).value) == CandidateHref(a)
    ensures CandidateHref(a) != "#" && !IsPrefix("javascript", CandidateHref(a))
  {
    assert JsTrim("") == "";
  }

  /** An `href` of only whitespace is truthy, so it hides a good `data-url`
      behind it and the anchor is rejected. */
  lemma BlankHrefHidesDataUrl()
    ensures !HasGoodHref(Some(Element("a", map["href" := " ", "data-url" := "/jobs/7"], [])))
  {
    var a := Element("a", map["href" := " ", "data-url" := "/jobs/7"], []);
    assert RawHref(a) == Some(" ");
    assert DropWhile(" ", IsJsSpace) == "";
  }

  /** The "javascript" test is case-sensitive: an upper-case scheme passes. */
  lemma UpperCaseSchemeAccepted()
    ensures HasGoodHref(Some(Element("a", map["href" := "JavaScript:void(0)"], [])))
  {
    var a := Element("a", map["href" := "JavaScript:void(0)"], []);
    var h := "JavaScript:void(0)";
    assert RawHref(a) == Some(h);
    assert DropWhile(h, IsJsSpace) == h;
    assert DropWhileRight(h, IsJsSpace) == h;
    assert h[0] != "javascript"[0];
  }

  // ---------------------------------------------------------------------------
  // Slides

  /** The selector 'a, .title, [data-title], h3, h2'. */
  predicate IsTitleLike(n: Node) {
    IsTag(n, "a") || HasClass(n, "title") || HasAttribute(n, "data-title") || IsTag(n, "h3") || IsTag(n, "h2")
  }

  /** The selector '.comeet-position-details, .details, .subtitle, .meta'. */
  predicate IsMetaLike(n: Node) {
    HasClass(n, "comeet-position-details") || HasClass(n, "details") || HasClass(n, "subtitle") || HasClass(n, "meta")
  }

  /** `text.replace(/\s{2,}/g, ' ').trim()`. */
  function TidyTitle(text: string): string {
    JsTrim(CollapseRuns(text, IsJsSpace, 2))
  }

  /** The slide title: the text of the first title-like element of the item,
      or of the item itself when it has none. */
  function SlideTitle(item: Node): string {
    TidyTitle(TextContent(Query(item, IsTitleLike).GetOr(item)))
  }

  /** The meta line: the trimmed text of the first meta-like element, or "". */
  function SlideMeta(item: Node): string {
    match Query(item, IsMetaLike)
    case Some(m) => JsTrim(TextContent(m))
    case None => ""
  }

  /** The CTA target: only a good anchor is resolved, through `absoluteUrl`
      (`resolve`, which may fail), from its untrimmed raw link. */
  function ResolvedHref(anchor: Option<Node>, resolve: string -> Option<string>): Option<string> {
    if HasGoodHref(anchor) then resolve(RawHref(anchor.value).GetOr("")) else None
  }

  /** A built slide, with what its CTA click handler closes over. */
  datatype Slide = Slide(title: string, meta: string, href: Option<string>, item: Node, anchor: Option<Node>)

  /** `buildSlideFromItem(item, anchor)`. */
  function BuildSlide(item: Node, anchor: Option<Node>, resolve: string -> Option<string>): Slide {
    Slide(SlideTitle(item), SlideMeta(item), ResolvedHref(anchor, resolve), item, anchor)
  }

  /** The CTA link: a real link opened in a new tab, or the placeholder "#". */
  datatype Cta = NewTabLink(url: string) | Placeholder

  function CtaOf(slide: Slide): Cta {
    if Truthy(slide.href) then NewTabLink(slide.href.value) else Placeholder
  }

  /** A slide title has no two adjacent whitespace characters and neither
      end is whitespace. */
  lemma TidyTitleIsTidy(text: string)
    ensures var t := TidyTitle(text);
      NoAdjacent(t, IsJsSpace) && (t == [] || (!IsJsSpace(t[0]) && !IsJsSpace(t[|t| - 1])))
  {
    var c := CollapseRuns(text, IsJsSpace, 2);
    CollapseRunsNoAdjacent(text, IsJsSpace, 2);
    TrimBySpec(c, IsJsSpace);
    var i, j :| 0 <= i <= j <= |c| && TidyTitle(text) == c[i..j];
    SliceKeepsCollapsed(c, IsJsSpace, i, j);
  }

  /** Only runs of two or more are collapsed: a text without adjacent
      whitespace (a lone tab or newline inside, say) is only trimmed. */
  lemma TidyTitleKeepsLoneWhitespace(text: string)
    requires NoAdjacent(text, IsJsSpace)
    ensures TidyTitle(text) == JsTrim(text)
  {
    CollapseRunsFixpoint(text, IsJsSpace, 2);
  }

  /** Every non-whitespace character of the text is kept, in order. */
  lemma TidyTitleKeepsText(text: string)
    ensures Skeleton(TidyTitle(text), IsJsSpace) == Skeleton(text, IsJsSpace)
  {
    CollapseRunsSkeleton(text, IsJsSpace, 2);
    TrimKeepsSkeleton(CollapseRuns(text, IsJsSpace, 2), IsJsSpace);
  }

  /** A slide title is already tidy. */
  lemma TidyTitleIdempotent(text: string)
    ensures TidyTitle(TidyTitle(text)) == TidyTitle(text)
  {
    var t := TidyTitle(text);
    TidyTitleIsTidy(text);
    CollapseRunsFixpoint(t, IsJsSpace, 2);
    TrimByUntrimmed(t, IsJsSpace);
  }

  /** The CTA is a new-tab link exactly when the anchor has a good link and
      resolving its raw link succeeds; an absent anchor always gives "#". */
  lemma CtaIsLinkIffResolved(item: Node, anchor: Option<Node>, resolve: string -> Option<string>)
    ensures var cta := CtaOf(BuildSlide(item, anchor, resolve));
      && (cta.NewTabLink? <==> HasGoodHref(anchor) && Truthy(resolve(RawHref(anchor.value).value)))
      && (cta.NewTabLink? ==> cta.url == resolve(RawHref(anchor.value).value).value)
      && (anchor.None? ==> cta == Placeholder)
  {
    if HasGoodHref(anchor) {
      GoodHrefHasRawLink(anchor.value);
    }
  }

  // ---------------------------------------------------------------------------
  // The fallback click

  datatype Dispatch = Dispatch(eventType: string, target: Node)

  const EventTypes: seq<string> := ["mousedown", "mouseup", "click"]

  /** `triggerSequence(el)`: nothing for no element, otherwise mousedown,
      mouseup and click on it, in that order. */
  method TriggerSequence(el: Option<Node>) returns (log: seq<Dispatch>)
    ensures el.None? ==> log == []
    ensures el.Some? ==> log == [Dispatch("mousedown", el.value), Dispatch("mouseup", el.value), Dispatch("click", el.value)]
  {
    log := [];
    if el.None? {
      return;
    }
    for k := 0 to |EventTypes|
      invariant |log| == k && forall j :: 0 <= j < k ==> log[j] == Dispatch(EventTypes[j], el.value)
    {
      log := log + [Dispatch(EventTypes[k], el.value)];
    }
  }

  /** Whom the fallback clicks: the original anchor, else the item's first
      `a`, else the item itself. */
  function FallbackTarget(slide: Slide): Node {
    if slide.anchor.Some? then slide.anchor.value else Query(slide.item, (n: Node) => IsTag(n, "a")).GetOr(slide.item)
  }

  /** The CTA's click handler. With a link the browser follows it; without
      one the default is prevented and the events are dispatched on the
      fallback target. */
  method ClickCta(slide: Slide) returns (prevented: bool, log: seq<Dispatch>)
    ensures prevented <==> !Truthy(slide.href)
    ensures Truthy(slide.href) ==> log == []
    ensures !Truthy(slide.href) ==> log == [Dispatch("mousedown", FallbackTarget(slide)),
      Dispatch("mouseup", FallbackTarget(slide)), Dispatch("click", FallbackTarget(slide))]
  {
    prevented := false;
    log := [];
    if !Truthy(slide.href) {
      prevented := true;
      var a := if slide.anchor.Some? then slide.anchor else Query(slide.item, (n: Node) => IsTag(n, "a"));
      if a.Some? {
        log := TriggerSequence(a);
        return;
      }
      log := TriggerSequence(Some(slide.item));
    }
  }

  // ---------------------------------------------------------------------------
  // Pair collection

  /** The selector '.comeet-position, .comeet-position-item, .comeet-list-item, .position'. */
  predicate IsPositionItem(n: Node) {
    HasClass(n, "comeet-position") || HasClass(n, "comeet-position-item")
    || HasClass(n, "comeet-list-item") || HasClass(n, "position")
  }

  /** The selector 'a[href], [data-url], [data-href]'. */
  predicate IsAnchorLike(n: Node) {
    (IsTag(n, "a") && HasAttribute(n, "href")) || HasAttribute(n, "data-url") || HasAttribute(n, "data-href")
  }

  /** The job items of a root: its position elements, or all its `li`
      elements when it has none. */
  function ItemsOf(root: Node): seq<Node> {
    var list := QueryAll(root, IsPositionItem);
    if list != [] then list else QueryAll(root, (n: Node) => IsTag(n, "li"))
  }

  datatype Pair = Pair(item: Node, anchor: Option<Node>)

  function PairOf(item: Node): Pair {
    Pair(item, Query(item, IsAnchorLike))
  }

  /** One pair per item, root after root, item after item. */
  function PairsOf(roots: seq<Node>): seq<Pair> {
    FlatMap(roots, ItemsOf, PairOf)
  }

  /** The pair collection of `initSliderFromRoots`: for each root, for each
      of its items, push the item with its first link-like element. */
  method CollectPairs(roots: seq<Node>) returns (pairs: seq<Pair>)
    ensures pairs == PairsOf(roots)
  {
    pairs := FlatMapEach(roots, ItemsOf, PairOf);
  }

  /** Root `k` contributes one pair per item, in item order, between those
      of the roots before and after it. */
  lemma PairsOfRoot(roots: seq<Node>, k: nat)
    requires k < |roots|
    ensures PairsOf(roots) == PairsOf(roots[..k]) + Map(ItemsOf(roots[k]), PairOf) + PairsOf(roots[k + 1..])
  {
    FlatMapAt(roots, ItemsOf, PairOf, k);
  }

  /** There are no pairs exactly when no root has an item. */
  lemma NoPairsIffNoItems(roots: seq<Node>)
    ensures PairsOf(roots) == [] <==> forall k :: 0 <= k < |roots| ==> ItemsOf(roots[k]) == []
  {
    FlatMapEmpty(roots, ItemsOf, PairOf);
  }

  /** The items of a root are its position elements when it has any, and
      otherwise its `li` elements; either way they lie inside the root. */
  lemma ItemsFallBackToLi(root: Node)
    ensures QueryAll(root, IsPositionItem) != [] ==> ItemsOf(root) == QueryAll(root, IsPositionItem)
    ensures QueryAll(root, IsPositionItem) == [] ==> forall k :: 0 <= k < |ItemsOf(root)| ==> IsTag(ItemsOf(root)[k], "li")
    ensures forall k :: 0 <= k < |ItemsOf(root)| ==> ItemsOf(root)[k] in Descendants(root)
  {
  }

  /** The anchor of a pair, when there is one, lies inside its item and is
      link-like; so the fallback click lands on the item or inside it. */
  lemma FallbackStaysInItem(pair: Pair, resolve: string -> Option<string>)
    requires pair == PairOf(pair.item)
    ensures var target := FallbackTarget(BuildSlide(pair.item, pair.anchor, resolve));
      target == pair.item || target in Descendants(pair.item)
  {
  }

  // ---------------------------------------------------------------------------
  // Rebuilding the host

  /** A job-list root, whose `style.display` the slider sets. */
  class Root {
    const element: Node
    var display: string

    constructor (element: Node, display: string)
      ensures this.element == element && this.display == display
    {
      this.element := element;
      this.display := display;
    }
  }

  /** What the host holds: the carousel of slides, the navigation, or one
      of its original children. */
  datatype HostChild = Carousel(slides: seq<Slide>) | Nav | Original(node: Node)

  /** The `#careers` element, whose child list the slider changes. */
  class Host {
    var children: seq<HostChild>

    constructor (children: seq<HostChild>)
      ensures this.children == children
    {
      this.children := children;
    }
  }

  function Elements(roots: seq<Root>): seq<Node> {
    seq(|roots|, k requires 0 <= k < |roots| => roots[k].element)
  }

  function BuildSlides(pairs: seq<Pair>, resolve: string -> Option<string>): seq<Slide> {
    Map(pairs, (p: Pair) => BuildSlide(p.item, p.anchor, resolve))
  }

  /** `initSliderFromRoots(host, roots)`. With no pair it warns and changes
      nothing. Otherwise the carousel, one slide per pair in pair order, is
      inserted as the host's first child with the navigation right after it,
      the host's other children stay, and every root is hidden. */
  method InitSliderFromRoots(host: Host, roots: seq<Root>, resolve: string -> Option<string>) returns (warned: bool)
    modifies host, set r | r in roots
    ensures warned <==> PairsOf(Elements(roots)) == []
    ensures warned ==> host.children == old(host.children)
    ensures warned ==> forall k :: 0 <= k < |roots| ==> roots[k].display == old(roots[k].display)
    ensures !warned ==> host.children == [Carousel(BuildSlides(PairsOf(Elements(roots)), resolve)), Nav] + old(host.children)
    ensures !warned ==> forall k :: 0 <= k < |roots| ==> roots[k].display == "none"
  {
    var pairs := CollectPairs(Elements(roots));
    if pairs == [] {
      return true;
    }
    warned := false;
    var slides := MapEach(pairs, (p: Pair) => BuildSlide(p.item, p.anchor, resolve));
    host.children := [Carousel(slides)] + host.children;
    host.children := [host.children[0], Nav] + host.children[1..];
    for k := 0 to |roots|
      invariant forall j :: 0 <= j < k ==> roots[j].display == "none"
      invariant host.children == [Carousel(slides), Nav] + old(host.children)
    {
      roots[k].display := "none";
    }
  }
}
