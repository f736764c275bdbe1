/** The job categoriser: an ordered, first-match classifier of a job title.
    Stage one searches the category table in order for a term occurring in the
    title, ignoring case; stage two tries four fixed word alternations; stage
    three answers "Other". */
module Categorizer {
  import opened Wrappers
  import opened Text
  import opened Seqs

  /** One entry of the category table: its name (the table key) and its terms.
      The icon and colour of an entry are presentation only. */
  datatype CategoryRule = CategoryRule(name: string, terms: seq<string>)

  /** The table the plugin ships; a site may replace it wholesale through a
      filter hook, which is why every operation below takes the table as a
      parameter. */
  function DefaultCategories(): (table: seq<CategoryRule>)
    ensures |table| == 5
    ensures forall i :: 0 <= i < |table| ==> forall k :: 0 <= k < |table[i].terms| ==> table[i].terms[k] != ""
  {
    [ CategoryRule("Engineering", ["Engineer", "Back-End", "Front-End", "Developer", "DevOps", "SRE", "Architect"]),
      CategoryRule("Product & Design", ["Product", "Designer", "UX", "UI", "Research"]),
      CategoryRule("Data & Analytics", ["Analyst", "Data", "Analytics", "BI", "Business Intelligence"]),
      CategoryRule("Business", ["Business", "Sales", "Marketing", "Growth", "Partnership"]),
      CategoryRule("Operations", ["HR", "People", "Talent", "Recruiter", "Office Manager"]) ]
  }

  /** PHP's `stripos($haystack, $needle) !== false`. */
  predicate ContainsIgnoringCase(haystack: string, needle: string) {
    Contains(ToLower(haystack), ToLower(needle))
  }

  /** Some term of `rule` occurs in the (lower-cased) title. */
  predicate RuleMatches(rule: CategoryRule, title: string) {
    exists k :: 0 <= k < |rule.terms| && ContainsIgnoringCase(title, rule.terms[k])
  }

  /** The four alternations of stage two, each as its list of literal words.
      `front[- ]?end` stands for its three spellings. */
  const FrontEndWords: seq<string> :=
    ["front-end", "front end", "frontend", "react", "angular", "vue", "javascript", "js"]
  const BackEndWords: seq<string> :=
    ["back-end", "back end", "backend", "node", "python", "java", "php", "ruby", "go", "scala"]
  const DevOpsWords: seq<string> :=
    ["devops", "sre", "site reliability", "cloud", "aws", "azure", "gcp"]
  const DataWords: seq<string> :=
    ["data", "analytics", "analyst", "scientist", "machine learning", "ai", "business intelligence"]

  /** `preg_match('/(w1|w2|...)/i', $title)` for an alternation of lower-case words. */
  predicate PatternMatches(title: string, words: seq<string>) {
    ContainsAny(ToLower(title), words)
  }

  /** Stages two and three. */
  function PatternCategory(title: string): string {
    if PatternMatches(title, FrontEndWords) then "Engineering"
    else if PatternMatches(title, BackEndWords) then "Engineering"
    else if PatternMatches(title, DevOpsWords) then "Engineering"
    else if PatternMatches(title, DataWords) then "Data & Analytics"
    else "Other"
  }

  /** `comeet_categorize_job($job_title)` with the given category table. */
  function Categorize(table: seq<CategoryRule>, jobTitle: string): (r: string)
    ensures (exists i :: 0 <= i < |table| && table[i].name == r)
      || r == "Engineering" || r == "Data & Analytics" || r == "Other"
  {
    var title := ToLower(jobTitle);
    match FirstWhere(table, (rule: CategoryRule) => RuleMatches(rule, title))
    case Some(rule) => rule.name
    case None => PatternCategory(title)
  }

  /** The first table entry with a matching term decides the category, whatever
      later entries or the stage-two words would say. */
  lemma FirstMatchWins(table: seq<CategoryRule>, jobTitle: string, i: nat)
    requires i < |table| && RuleMatches(table[i], ToLower(jobTitle))
    requires forall j :: 0 <= j < i ==> !RuleMatches(table[j], ToLower(jobTitle))
    ensures Categorize(table, jobTitle) == table[i].name
  {
    var title := ToLower(jobTitle);
    var f := (rule: CategoryRule) => RuleMatches(rule, title);
    var r := FirstWhere(table, f);
    assert f(table[i]);
    var w :| 0 <= w < |table| && table[w] == r.value && f(table[w]) && forall j :: 0 <= j < w ==> !f(table[j]);
    assert w == i;
  }

  /** When no term of any entry occurs, stage two (and then "Other") decides. */
  lemma NoTermFallsBack(table: seq<CategoryRule>, jobTitle: string)
    requires forall j :: 0 <= j < |table| ==> !RuleMatches(table[j], ToLower(jobTitle))
    ensures Categorize(table, jobTitle) == PatternCategory(ToLower(jobTitle))
  {
  }

  /** Conversely, every answer is explained by one of the two cases above. */
  lemma CategorizeExplained(table: seq<CategoryRule>, jobTitle: string)
    ensures var r := Categorize(table, jobTitle); var title := ToLower(jobTitle);
      (exists i :: 0 <= i < |table| && RuleMatches(table[i], title) && r == table[i].name
         && forall j :: 0 <= j < i ==> !RuleMatches(table[j], title))
      || ((forall j :: 0 <= j < |table| ==> !RuleMatches(table[j], title)) && r == PatternCategory(title))
  {
    var title := ToLower(jobTitle);
    var f := (rule: CategoryRule) => RuleMatches(rule, title);
    var r := FirstWhere(table, f);
    if r.Some? {
      var w :| 0 <= w < |table| && table[w] == r.value && f(table[w]) && forall j :: 0 <= j < w ==> !f(table[j]);
      assert RuleMatches(table[w], title) && forall j :: 0 <= j < w ==> !RuleMatches(table[j], title);
    }
  }

  /** Matching ignores case: a title and its lower-cased form are categorised alike. */
  lemma CategorizeIgnoresCase(table: seq<CategoryRule>, jobTitle: string)
    ensures Categorize(table, ToLower(jobTitle)) == Categorize(table, jobTitle)
  {
    ToLowerIdempotent(jobTitle);
  }

  /** The empty title, for any table whose terms are all non-empty, is "Other":
      no term occurs in it and neither does any stage-two word. */
  lemma EmptyTitleIsOther(table: seq<CategoryRule>)
    requires forall i :: 0 <= i < |table| ==> forall k :: 0 <= k < |table[i].terms| ==> table[i].terms[k] != ""
    ensures Categorize(table, "") == "Other"
  {
    assert ToLower("") == "";
    forall j | 0 <= j < |table|
      ensures !RuleMatches(table[j], "")
    {
      forall k | 0 <= k < |table[j].terms|
        ensures !ContainsIgnoringCase("", table[j].terms[k])
      {
        NotContainedInShorter("", ToLower(table[j].terms[k]));
      }
    }
    NoTermFallsBack(table, "");
  }

  /** "Data Engineer" is Engineering: Engineering is listed before Data & Analytics. */
  lemma DataEngineerIsEngineering()
    ensures Categorize(DefaultCategories(), "Data Engineer") == "Engineering"
  {
    var title := ToLower("Data Engineer");
    assert title == "data engineer";
    assert ToLower("Engineer") == "engineer";
    assert ToLower(title) == "data engineer";
    assert OccursAt(ToLower(title), ToLower("Engineer"), 5);
    assert DefaultCategories()[0].terms[0] == "Engineer";
    assert ContainsIgnoringCase(title, DefaultCategories()[0].terms[0]);
    assert RuleMatches(DefaultCategories()[0], title);
    FirstMatchWins(DefaultCategories(), "Data Engineer", 0);
  }
}
