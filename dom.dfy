/** An abstract document tree: text nodes and elements with a tag name, an
    attribute map and children in document order, and the queries the plugin
    runs over it (`querySelector`, `querySelectorAll`, `textContent`, and the
    XPath class tests of the server-side scraper). Tag names are stored lower-case,
    as HTML parsers report them. */
module Dom {
  import opened Wrappers
  import opened Text
  import opened Seqs

  datatype Node =
    | TextNode(data: string)
    | Element(tag: string, attrs: map<string, string>, children: seq<Node>)

  function ChildrenOf(n: Node): seq<Node> {
    if n.Element? then n.children else []
  }

  /** `getAttribute(name)`: the value, or `null` when the attribute is absent. */
  function GetAttribute(n: Node, name: string): Option<string> {
    if n.Element? && name in n.attrs then Some(n.attrs[name]) else None
  }

  /** PHP DOM's `getAttribute`, which gives "" for an absent attribute. */
  function PhpGetAttribute(n: Node, name: string): string {
    GetAttribute(n, name).GetOr("")
  }

  predicate HasAttribute(n: Node, name: string) {
    GetAttribute(n, name).Some?
  }

  predicate IsTag(n: Node, tag: string) {
    n.Element? && n.tag == tag
  }

  /** ASCII whitespace as the HTML standard defines it (used to split `class`). */
  predicate IsHtmlSpace(c: char) {
    c == ' ' || c == '\t' || c == '\n' || c == '\U{0C}' || c == '\r'
  }

  /** XML whitespace, what XPath's `normalize-space` collapses. */
  predicate IsXmlSpace(c: char) {
    c == ' ' || c == '\t' || c == '\n' || c == '\r'
  }

  /** `token` is one of the whitespace-separated words of `list`. */
  predicate HasToken(list: string, token: string, sep: char -> bool) {
    && token != []
    && exists i: nat :: (i <= |list| && OccursAt(list, token, i)
      && (i == 0 || sep(list[i - 1]))
      && (i + |token| == |list| || sep(list[i + |token|])))
  }

  /** The CSS class selector `.name`. */
  predicate HasClass(n: Node, name: string) {
    n.Element? && HasToken(PhpGetAttribute(n, "class"), name, IsHtmlSpace)
  }

  /** The XPath test
      `contains(concat(" ", normalize-space(@class), " "), " name ")`. */
  predicate XPathHasClass(n: Node, name: string) {
    var normalized := TrimBy(CollapseRuns(PhpGetAttribute(n, "class"), IsXmlSpace, 1), IsXmlSpace);
    n.Element? && Contains(" " + normalized + " ", " " + name + " ")
  }

  /** The XPath test `contains(@class, "word")`: a plain substring test. */
  predicate XPathClassContains(n: Node, word: string) {
    n.Element? && Contains(PhpGetAttribute(n, "class"), word)
  }

  /** `n` and everything below it, in document (pre-)order. */
  function Subtree(n: Node): seq<Node>
    decreases n
  {
    match n
    case TextNode(_) => [n]
    case Element(_, _, cs) => [n] + Subtrees(cs)
  }

  function Subtrees(cs: seq<Node>): seq<Node>
    decreases cs
  {
    if cs == [] then [] else Subtree(cs[0]) + Subtrees(cs[1..])
  }

  /** Everything below `n`, in document order; `n` itself is not included,
      as in `scope.querySelectorAll` and the XPath descendant axis. */
  function Descendants(n: Node): seq<Node> {
    Subtrees(ChildrenOf(n))
  }

  /** `textContent` (JavaScript) or `nodeValue` of an element (PHP DOM): the text
      of every text node below, concatenated in document order. */
  function TextContent(n: Node): string
    decreases n
  {
    match n
    case TextNode(d) => d
    case Element(_, _, cs) => TextsOf(cs)
  }

  function TextsOf(cs: seq<Node>): string
    decreases cs
  {
    if cs == [] then "" else TextContent(cs[0]) + TextsOf(cs[1..])
  }

  /** `scope.querySelectorAll(selector)`. */
  function QueryAll(scope: Node, selector: Node -> bool): (r: seq<Node>)
    ensures forall i :: 0 <= i < |r| ==> selector(r[i]) && r[i] in Descendants(scope)
  {
    Filter(Descendants(scope), selector)
  }

  /** `scope.querySelector(selector)`. */
  function Query(scope: Node, selector: Node -> bool): (r: Option<Node>)
    ensures r.Some? ==> selector(r.value) && r.value in Descendants(scope)
    ensures r.None? <==> QueryAll(scope, selector) == []
  {
    FirstWhereIsFilterHead(Descendants(scope), selector);
    FirstWhere(Descendants(scope), selector)
  }

  /** `querySelector` returns the first element `querySelectorAll` would list. */
  lemma QueryIsFirstOfQueryAll(scope: Node, selector: Node -> bool)
    ensures Query(scope, selector)
      == if QueryAll(scope, selector) == [] then None else Some(QueryAll(scope, selector)[0])
  {
    FirstWhereIsFilterHead(Descendants(scope), selector);
  }
}
