/** The post-parse rules of `comeet_scrape_jobs`, the fallback used when the
    job-data provider returned nothing: pick the job elements by the first
    class that matches anything, read a title and a link from each, and keep
    the records that have a title. Fetching and parsing are parameters. */
module Scraper {
  import opened Wrappers
  import opened Text
  import opened Seqs
  import opened Dom
  import opened Jobs

  /** What `wp_remote_get` gave back: an error object, or a status code and body. */
  datatype Response = WpError | HttpResponse(code: int, body: string)

  /** The classes tried, in order. */
  const JobClasses: seq<string> := ["comeet-position", "job-item", "position"]

  /** The elements of the document (in document order) whose class list
      contains `name` as a whole word. */
  function ElementsWithClass(document: seq<Node>, name: string): (r: seq<Node>)
    ensures forall i :: 0 <= i < |r| ==> r[i] in Subtrees(document) && r[i].Element?
    ensures forall i :: 0 <= i < |r| ==> XPathHasClass(r[i], name)
    ensures forall n :: n in Subtrees(document) && XPathHasClass(n, name) ==> n in r
  {
    Filter(Subtrees(document), (n: Node) => XPathHasClass(n, name))
  }

  /** The candidate lists, one per class of `JobClasses`. */
  function Candidates(document: seq<Node>): seq<seq<Node>> {
    seq(|JobClasses|, k requires 0 <= k < |JobClasses| => ElementsWithClass(document, JobClasses[k]))
  }

  /** The selector loop: the first class with any match wins. */
  method SelectJobElements(document: seq<Node>) returns (elements: seq<Node>)
    ensures elements == FirstNonEmpty(Candidates(document))
  {
    ghost var lists := Candidates(document);
    elements := [];
    var k := 0;
    while k < |JobClasses|
      invariant 0 <= k <= |JobClasses|
      invariant elements == [] && FirstNonEmpty(lists) == FirstNonEmpty(lists[k..])
    {
      var found := ElementsWithClass(document, JobClasses[k]);
      assert lists[k..][0] == found;
      if |found| > 0 {
        elements := found;
        break;
      }
      assert lists[k..][1..] == lists[k + 1..];
      k := k + 1;
    }
  }

  /** The title of a job element: the text of its first descendant whose class
      attribute contains "title", or else its own text, trimmed. */
  function ElementTitle(element: Node): string {
    var titled := Query(element, (n: Node) => XPathClassContains(n, "title"));
    PhpTrim(TextContent(titled.GetOr(element)))
  }

  predicate IsAbsoluteUrl(s: string) {
    IsPrefix("http://", s) || IsPrefix("https://", s)
  }

  /** The link of a job element: only an `a` element has one; its `href` is
      kept when it starts with http:// or https://, and passed through
      `home_url` otherwise. */
  function ElementLink(element: Node, homeUrl: string -> string): string {
    if IsTag(element, "a") then
      var href := PhpGetAttribute(element, "href");
      if IsAbsoluteUrl(href) then href else homeUrl(href)
    else ""
  }

  function ScrapedRecord(element: Node, homeUrl: string -> string): JobRecord {
    JobRecord(Some(ElementTitle(element)), Some(""), Some(""), Some(ElementLink(element, homeUrl)), None)
  }

  predicate HasTitle(job: JobRecord) {
    !IsEmpty(job.title)
  }

  /** The records of the given elements that have a title, in element order. */
  function RecordsOf(elements: seq<Node>, homeUrl: string -> string): seq<JobRecord> {
    Filter(Map(elements, (e: Node) => ScrapedRecord(e, homeUrl)), HasTitle)
  }

  /** `comeet_scrape_jobs` after the request: nothing unless the request
      succeeded with status 200 and a non-empty body. */
  method ScrapeJobs(response: Response, parse: string -> seq<Node>, homeUrl: string -> string)
    returns (jobs: seq<JobRecord>)
    ensures response.WpError? || response.code != 200 || IsEmpty(Some(response.body)) ==> jobs == []
    ensures response.HttpResponse? && response.code == 200 && !IsEmpty(Some(response.body)) ==>
      jobs == RecordsOf(FirstNonEmpty(Candidates(parse(response.body))), homeUrl)
  {
    jobs := [];
    if response.HttpResponse? && response.code == 200 {
      var html := response.body;
      if !IsEmpty(Some(html)) {
        var document := parse(html);
        var elements := SelectJobElements(document);
        // Build each element's record and keep it when it has a title.
        jobs := MapFilter(elements, (e: Node) => ScrapedRecord(e, homeUrl), HasTitle);
      }
    }
  }

  // ---------------------------------------------------------------------------
  // Properties

  /** The first class with matches decides, whatever the later classes match. */
  lemma FirstClassWins(document: seq<Node>, k: nat)
    requires k < |JobClasses| && ElementsWithClass(document, JobClasses[k]) != []
    requires forall j :: 0 <= j < k ==> ElementsWithClass(document, JobClasses[j]) == []
    ensures FirstNonEmpty(Candidates(document)) == ElementsWithClass(document, JobClasses[k])
  {
    var lists := Candidates(document);
    var r := FirstNonEmpty(lists);
    assert lists[k] != [];
    var w :| 0 <= w < |lists| && r == lists[w] && forall j :: 0 <= j < w ==> lists[j] == [];
    assert w == k;
  }

  /** No element with any of the classes: no jobs. */
  lemma NoJobElements(document: seq<Node>, homeUrl: string -> string)
    requires forall k :: 0 <= k < |JobClasses| ==> ElementsWithClass(document, JobClasses[k]) == []
    ensures RecordsOf(FirstNonEmpty(Candidates(document)), homeUrl) == []
  {
    var lists := Candidates(document);
    assert forall k :: 0 <= k < |lists| ==> lists[k] == [];
  }

  /** Every scraped record has a title, empty location and type, no category,
      and a link that is either empty (not an anchor) or comes from the
      anchor's `href`. */
  lemma ScrapedRecordsShape(elements: seq<Node>, homeUrl: string -> string)
    ensures var jobs := RecordsOf(elements, homeUrl);
      |jobs| <= |elements|
      && forall i :: 0 <= i < |jobs| ==>
           && !IsEmpty(jobs[i].title)
           && jobs[i].location == Some("") && jobs[i].jobType == Some("") && jobs[i].category == None
           && exists e :: e in elements && jobs[i] == ScrapedRecord(e, homeUrl)
  {
    var records := Map(elements, (e: Node) => ScrapedRecord(e, homeUrl));
    var jobs := RecordsOf(elements, homeUrl);
    forall i | 0 <= i < |jobs|
      ensures exists e :: e in elements && jobs[i] == ScrapedRecord(e, homeUrl)
    {
      var m :| 0 <= m < |records| && records[m] == jobs[i];
      assert elements[m] in elements;
    }
  }

  /** An element with a non-empty title is never dropped. */
  lemma TitledElementKept(elements: seq<Node>, homeUrl: string -> string, i: nat)
    requires i < |elements| && !IsEmpty(Some(ElementTitle(elements[i])))
    ensures ScrapedRecord(elements[i], homeUrl) in RecordsOf(elements, homeUrl)
  {
    var records := Map(elements, (e: Node) => ScrapedRecord(e, homeUrl));
    assert HasTitle(records[i]);
  }

  /** When `home_url` always gives an absolute address, every link is empty
      or absolute. */
  lemma LinksAreAbsolute(elements: seq<Node>, homeUrl: string -> string)
    requires forall path :: IsAbsoluteUrl(homeUrl(path))
    ensures var jobs := RecordsOf(elements, homeUrl);
      forall i :: 0 <= i < |jobs| ==> jobs[i].link.value == "" || IsAbsoluteUrl(jobs[i].link.value)
  {
    var jobs := RecordsOf(elements, homeUrl);
    ScrapedRecordsShape(elements, homeUrl);
    forall i | 0 <= i < |jobs|
      ensures jobs[i].link.value == "" || IsAbsoluteUrl(jobs[i].link.value)
    {
      var e :| e in elements && jobs[i] == ScrapedRecord(e, homeUrl);
      LinkIsAbsolute(e, homeUrl);
    }
  }

  /** The same for one element: its link is empty, an absolute `href`, or
      what `home_url` made of a relative one. */
  lemma LinkIsAbsolute(e: Node, homeUrl: string -> string)
    requires forall path :: IsAbsoluteUrl(homeUrl(path))
    ensures var link := ElementLink(e, homeUrl); link == "" || IsAbsoluteUrl(link)
  {
  }

  /** A `home_url` that prefixes an absolute base address meets the
      requirement of the two lemmas above. */
  lemma PrefixedHomeUrlIsAbsolute(base: string)
    requires IsAbsoluteUrl(base)
    ensures forall path :: IsAbsoluteUrl(base + path)
  {
    forall path | true
      ensures IsAbsoluteUrl(base + path)
    {
      var link := base + path;
      if IsPrefix("http://", base) {
        assert link[..7] == base[..7];
      } else {
        assert link[..8] == base[..8];
      }
    }
  }
}
