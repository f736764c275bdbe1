# Comeet job slider helper — a Dafny model

The plugin shows job openings inside a WordPress site. It has two parts,
and both are modelled here.

**Server side** (`comeet-slider-helper.php`):
- It collects job records from the job-data provider. When the provider has none, it scrapes them from the careers page.
- It normalises each title. Whitespace is collapsed, and a compound "Title · Location · Type" title is split into its fields.
- It puts every job into a category with an ordered, first-match classifier.
- It groups the jobs by category. At most five categories with three or more jobs get a filter button.
- It renders one card per job. A small inline script shows only the cards of the clicked category.

**Browser side** (`assets/comeet-slider.js`):
- It collects (item, anchor) pairs from the job-list roots of the `#careers` host.
- It builds one slide per pair: a tidy title, a meta line and a call to action.
- The call to action opens the job link in a new tab when the link is usable. Otherwise it replays mousedown, mouseup and click on the original anchor.
- It inserts the carousel and its navigation at the front of the host and hides the original roots.

Every module has its own file:

| file | module | models |
|---|---|---|
| `wrappers.dfy` | `Wrappers` | `Option` |
| `text.dfy` | `Text` | character classes of PCRE `\s`, PHP `trim` and JavaScript `\s`/`trim`; lower-casing; substring search; trimming; collapsing whitespace runs; `explode` |
| `seqs.dfy` | `Seqs` | filter, map, first match, count, flat-map, and small loops that compute them |
| `dom.dfy` | `Dom` | a document as a tree of elements and text; attributes, class tests, `textContent`, `querySelector(All)` in document order |
| `categorizer.dfy` | `Categorizer` | `comeet_categorize_job` and the default category table |
| `jobs.dfy` | `Jobs` | job records and the clean-up loop of `comeet_fetch_jobs` |
| `scraper.dfy` | `Scraper` | `comeet_scrape_jobs` after the HTTP request |
| `grouping.dfy` | `Grouping` | grouping by category, choosing the filter categories, building the filter bar |
| `filters.dfy` | `Filters` | a filter container in the page, with its one-time initialisation and button clicks |
| `slides.dfy` | `Slides` | `hasGoodHref`, `buildSlideFromItem`, `triggerSequence`, `initSliderFromRoots` |

PHP strings are byte strings, but the functions used here only look at ASCII:
- `strtolower`, `stripos`, `strpos`;
- `explode` on the UTF-8 middle dot;
- PCRE `\s` without the `u` flag.

On well-formed UTF-8 these agree with the same functions on code points, so
strings are modelled as `seq<char>`. PHP `empty()` on a field is `IsEmpty`:
the field is empty when it is missing, `""` or `"0"`.

Some behaviours of the code are narrower than a reader might expect; the
model follows the code:
- Only the first truthy link attribute counts. An `href` made of spaces therefore hides a good `data-url` after it (`Slides.BlankHrefHidesDataUrl`).
- The test for a script link is a case-sensitive prefix test for `javascript`, so `JavaScript:` links are accepted (`Slides.UpperCaseSchemeAccepted`).
- When the slide has no good link, the fallback click goes to the original anchor. If there is none, it goes to the item's first `a`, and otherwise to the item itself (`Slides.ClickCta`).
- The fresh-jobs list initialises only the first `.fresh-jobs-wrapper` on the page (`Filters.InitFresh`).

## Model

| member | source | states |
|---|---|---|
| Categorizer.DefaultCategories | comeet-slider-helper.php:14-44 | the shipped table has five categories, and none of their terms is empty |
| Categorizer.Categorize | comeet-slider-helper.php:49-80 | the answer is always a table category, "Engineering", "Data & Analytics" or "Other" |
| Categorizer.FirstMatchWins | comeet-slider-helper.php:54-60 | if entry i is the first table entry with a term in the title (ignoring case), the title gets entry i's category, whatever later entries or the fixed patterns say |
| Categorizer.NoTermFallsBack | comeet-slider-helper.php:62-79 | if no term of any entry occurs in the title, the four fixed word patterns decide, in order, and "Other" is the default |
| Categorizer.PatternCategory | comeet-slider-helper.php:62-79 | defined directly by its body; see Categorizer.NoTermFallsBack |
| Categorizer.CategorizeExplained | comeet-slider-helper.php:49-80 | every answer comes from one of two cases: the first matching table entry, or no match and the fixed patterns |
| Categorizer.CategorizeIgnoresCase | comeet-slider-helper.php:50 | a title and its lower-cased form get the same category |
| Categorizer.EmptyTitleIsOther | comeet-slider-helper.php:49-80 | the empty title is "Other" for every table whose terms are non-empty |
| Categorizer.DataEngineerIsEngineering | comeet-slider-helper.php:17-27 | "Data Engineer" is Engineering, because Engineering's entry comes first |
| Jobs.Tidy | comeet-slider-helper.php:116-133 | link and category are kept; a location or type that is already set is kept; a record with an empty title is unchanged; a non-empty title stays present |
| Jobs.CleanTitle | comeet-slider-helper.php:117 | defined directly by its body; see Jobs.CleanTitleIsClean and Jobs.CleanTitleFixpoint |
| Jobs.SplitCompound | comeet-slider-helper.php:119-132 | defined directly by its body; see Jobs.SplitCompoundOfCompound |
| Jobs.NormalizeJob | comeet-slider-helper.php:114-136 | the record gets the category of its tidied title (the empty title when it has none); its other fields are those of the tidy step; the link is never touched |
| Jobs.NormalizeJobs | comeet-slider-helper.php:114-136 | the in-place loop replaces every record by its normalised form |
| Jobs.FetchJobs | comeet-slider-helper.php:85-139 | the result is the provider's records, or the scraped ones when the provider gave none, each normalised, in order |
| Jobs.CleanTitleIsClean | comeet-slider-helper.php:117 | after collapse and trim, whitespace appears only as single plain spaces, and neither end is a trim character |
| Jobs.CleanTitleFixpoint | comeet-slider-helper.php:117 | cleaning a clean title changes nothing |
| Jobs.TrimmedSliceIsClean | comeet-slider-helper.php:121 | trimming a slice of a clean title gives a clean title |
| Jobs.CleanTitleKeepsAbsent | comeet-slider-helper.php:117 | cleaning never adds a character that is neither whitespace nor in the title |
| Jobs.TitleWithoutSeparator | comeet-slider-helper.php:116-121 | a title without a middle dot is only cleaned, and location and type stay as they were |
| Jobs.CompoundTitleKeepsFirstSegment | comeet-slider-helper.php:119-121 | a title with a middle dot becomes the trimmed text before the first dot |
| Jobs.NormalizedTitleIsSimple | comeet-slider-helper.php:116-121 | a normalised non-empty title is clean and has no middle dot left |
| Jobs.TidiedTitleIsSimple | comeet-slider-helper.php:116-121 | after the tidy step a non-empty title is clean and has no middle dot left |
| Jobs.NormalizeJobIdempotent | comeet-slider-helper.php:114-136 | normalising twice gives the same record as normalising once |
| Jobs.CompoundEnds | comeet-slider-helper.php:119 | a compound title starts with its first segment's first character and ends with its last segment's last character |
| Jobs.SplitCompoundTitle | comeet-slider-helper.php:119 | splitting "s1 · s2 · …" on the middle dot gives one piece per segment, with the spaces next to the dots |
| Jobs.CompoundIsClean | comeet-slider-helper.php:117 | a compound of clean segments is already clean |
| Jobs.CompoundTitleNormalized | comeet-slider-helper.php:116-135 | for a raw title that cleans up to "s1 · s2 · …": the title becomes s1; s2 becomes the location only when the location is empty and s2 mentions Office or Hybrid; s3 becomes the type only when the type is empty; the category comes from s1 |
| Jobs.TidyCompoundTitle | comeet-slider-helper.php:116-133 | the same redistribution of the segments for the tidy step alone, for any raw title that cleans up to the compound |
| Jobs.CompoundTitleLocation | comeet-slider-helper.php:117-128 | for any title whose cleaned text t has its first middle dot at i and the next dot (or the end) at j: the location becomes the trimmed text between them only when the location is empty and that text mentions Office or Hybrid, and is kept otherwise; with no second dot the type is kept |
| Jobs.CompoundTitleType | comeet-slider-helper.php:117-131 | for any title whose cleaned text has a second middle dot at j, with the next dot (or the end) at k: the type becomes the trimmed text between them only when the type is empty, and is kept otherwise |
| Jobs.SplitCompoundType | comeet-slider-helper.php:119-131 | the same type rule for the split step alone, on the cleaned text |
| Jobs.SplitCompoundOfCompound | comeet-slider-helper.php:119-132 | the same redistribution, for the split step on a compound title |
| Jobs.TrimmedPiece | comeet-slider-helper.php:121-130 | trimming a piece of a compound title gives back its segment |
| Jobs.SeniorBackendEngineerExample | comeet-slider-helper.php:114-136 | "Senior Backend Engineer · Tel Aviv Office · Full-time" becomes the title "Senior Backend Engineer", the location "Tel Aviv Office" and the type "Full-time" |
| Jobs.CompoundOfThree | comeet-slider-helper.php:119 | three segments joined by the separator " · " form their compound title |
| Scraper.ElementsWithClass | comeet-slider-helper.php:166-170 | every element returned is an element of the document with the class as a whole word, and every such element is returned |
| Scraper.SelectJobElements | comeet-slider-helper.php:172-179 | the loop returns the matches of the first class that has any |
| Scraper.ElementTitle | comeet-slider-helper.php:191-197 | defined directly by its body; see Scraper.TitledElementKept |
| Scraper.ElementLink | comeet-slider-helper.php:199-205 | defined directly by its body; see Scraper.LinkIsAbsolute |
| Scraper.ScrapeJobs | comeet-slider-helper.php:144-215 | no jobs on a request error, a status other than 200 or an empty body; otherwise the titled records of the selected elements, in document order |
| Scraper.FirstClassWins | comeet-slider-helper.php:173-179 | when class k is the first with matches, its matches are used, whatever later classes match |
| Scraper.NoJobElements | comeet-slider-helper.php:182 | when no class matches, there are no jobs |
| Scraper.ScrapedRecordsShape | comeet-slider-helper.php:183-210 | at most one record per element; each record has a non-empty title, empty location and type, no category, and comes from one of the elements |
| Scraper.TitledElementKept | comeet-slider-helper.php:207-210 | an element with a non-empty title is never dropped |
| Scraper.LinksAreAbsolute | comeet-slider-helper.php:199-205 | when `home_url` always gives an absolute address, every link is empty or absolute |
| Scraper.LinkIsAbsolute | comeet-slider-helper.php:200-205 | the same, for one element |
| Scraper.PrefixedHomeUrlIsAbsolute | comeet-slider-helper.php:203 | a `home_url` that prefixes an absolute base address always gives an absolute address |
| Grouping.Cats | comeet-slider-helper.php:436-437 | one card category per job, in job order, with a missing category as "Other" |
| Grouping.FirstAppearance | comeet-slider-helper.php:266-273 | the group order holds exactly the keys of the sequence |
| Grouping.GroupBy | comeet-slider-helper.php:266-273 | groups are created in the order their key first appears; each group holds exactly the jobs with its key, in job order |
| Grouping.FirstIndex | comeet-slider-helper.php:266-273 | the index found holds x, and no earlier index does |
| Grouping.Kept | comeet-slider-helper.php:275-279 | defined directly by its body; see Grouping.KeptGroups and Grouping.LargeGroupLeftOut |
| Grouping.FilterButtons | comeet-slider-helper.php:418-431 | defined directly by its body; see Grouping.FilterBarShown and Grouping.FilterBarButtons |
| Grouping.GroupSizeIsCount | comeet-slider-helper.php:276-278 | a group's size is the number of cards carrying its category |
| Grouping.FirstAppearanceOrdered | comeet-slider-helper.php:266-273 | the groups are ordered by the first job of each category |
| Grouping.FirstAppearanceDistinct | comeet-slider-helper.php:269-271 | no category has two groups |
| Grouping.KeptGroups | comeet-slider-helper.php:276-279 | at most five categories are kept; each has three or more jobs; they keep first-appearance order and are distinct |
| Grouping.LargeGroupLeftOut | comeet-slider-helper.php:279 | a category with three or more jobs is left out only when five categories are kept and all of them appear before it |
| Grouping.FilterBarShown | comeet-slider-helper.php:418 | the bar has buttons exactly when some category has three or more jobs |
| Grouping.FilterBarButtons | comeet-slider-helper.php:418-431 | the bar starts with "all" and the job count; then one button per kept category with its group size, which is at least three |
| Grouping.KeptFromGroups | comeet-slider-helper.php:276-279 | taking the first five grouped categories with three or more jobs gives the kept categories, and each kept group's size is its number of jobs |
| Grouping.EmitButtons | comeet-slider-helper.php:419-430 | the loop emits the "all" button and then one button per kept category, or nothing when none is kept |
| Grouping.BarFromGroups | comeet-slider-helper.php:266-279 | the bar emitted from the grouped map, with each button counting its group, is the filter bar of the jobs |
| Grouping.BuildFilterBar | comeet-slider-helper.php:266-279 | grouping, choosing and emitting give the filter bar and the card categories of the job list |
| Filters.ActiveAfter | comeet-slider-helper.php:490-495 | after a click on button i, a button is active exactly when it is button i |
| Filters.ShownAfter | comeet-slider-helper.php:498-529 | a card is shown exactly when "all" is selected or the card's category is the selected one |
| Filters.FilterContainer.constructor | comeet-slider-helper.php:418-437 | the rendered container, whose first button is "all": that button is active, every card is shown, no handler is attached, and the cards are as a click on the first button leaves them |
| Filters.FilterContainer.Init | comeet-slider-helper.php:466-469 | after initialisation the container is marked, and buttons and cards are unchanged; a second call does nothing |
| Filters.FilterContainer.Click | comeet-slider-helper.php:483-530 | after initialisation, exactly the clicked button is active and exactly the matching cards are shown; before it, nothing changes; the new state depends only on which button was clicked |
| Filters.InitFresh | comeet-slider-helper.php:466-469 | only the first fresh-jobs wrapper of the page is initialised |
| Filters.InitUltra | comeet-slider-helper.php:779-796 | the container with the id is initialised when it is present; otherwise nothing happens |
| Filters.ExactlyOneActive | comeet-slider-helper.php:490-495 | after a click, exactly one button is active |
| Filters.ShownCount | comeet-slider-helper.php:498-514 | "all" shows every card; another category shows as many cards as carry it |
| Filters.ButtonCountIsShownCount | comeet-slider-helper.php:418-437 | the number on each button is the number of cards a click on it shows |
| Slides.HasGoodHref | assets/comeet-slider.js:22-27 | defined directly by its body; see Slides.GoodHrefHasRawLink, Slides.BlankHrefHidesDataUrl and Slides.UpperCaseSchemeAccepted |
| Slides.RawHrefIsFirstTruthy | assets/comeet-slider.js:24 | the raw link is the first present, non-empty value of `href`, `data-url`, `data-href`; there is none exactly when all three are absent or empty |
| Slides.GoodHrefHasRawLink | assets/comeet-slider.js:22-27 | an accepted anchor has a raw link; its trimmed form is not "#" and does not start with "javascript" |
| Slides.BlankHrefHidesDataUrl | assets/comeet-slider.js:24-25 | an `href` of one space hides a good `data-url`, and the anchor is rejected |
| Slides.UpperCaseSchemeAccepted | assets/comeet-slider.js:25 | "JavaScript:void(0)" is accepted, because the scheme test is case-sensitive |
| Slides.TidyTitle | assets/comeet-slider.js:40 | defined directly by its body; see Slides.TidyTitleIsTidy, Slides.TidyTitleKeepsText and Slides.TidyTitleIdempotent |
| Slides.SlideTitle | assets/comeet-slider.js:39-40 | defined directly by its body; see Slides.TidyTitleIsTidy |
| Slides.SlideMeta | assets/comeet-slider.js:41-42 | defined directly by its body: the trimmed text of the first meta-like element, or "" |
| Slides.BuildSlide | assets/comeet-slider.js:38-69 | defined directly by its body; see Slides.CtaIsLinkIffResolved and Slides.FallbackStaysInItem |
| Slides.TidyTitleIsTidy | assets/comeet-slider.js:40 | a slide title has no two adjacent whitespace characters, and neither end is whitespace |
| Slides.TidyTitleKeepsLoneWhitespace | assets/comeet-slider.js:40 | a text without adjacent whitespace is only trimmed; a lone tab or newline stays |
| Slides.TidyTitleKeepsText | assets/comeet-slider.js:40 | every non-whitespace character of the text is kept, in order |
| Slides.TidyTitleIdempotent | assets/comeet-slider.js:40 | tidying a tidy title changes nothing |
| Slides.CtaIsLinkIffResolved | assets/comeet-slider.js:44-56 | the CTA is a new-tab link exactly when the anchor is good and resolving its raw link succeeds; the link is the resolved address; with no anchor the CTA is "#" |
| Slides.TriggerSequence | assets/comeet-slider.js:31-36 | nothing for no element; otherwise mousedown, mouseup and click on it, in that order |
| Slides.ClickCta | assets/comeet-slider.js:60-67 | with a link nothing is dispatched and the default runs; otherwise the default is prevented and the three events go to the fallback target |
| Slides.ItemsOf | assets/comeet-slider.js:74-75 | defined directly by its body; see Slides.ItemsFallBackToLi |
| Slides.PairOf | assets/comeet-slider.js:76 | defined directly by its body; see Slides.FallbackStaysInItem |
| Slides.CollectPairs | assets/comeet-slider.js:72-77 | the loops collect one pair per item, root after root, item after item |
| Slides.PairsOfRoot | assets/comeet-slider.js:73-77 | root k contributes one pair per item, in item order, between the pairs of the roots before it and after it |
| Slides.NoPairsIffNoItems | assets/comeet-slider.js:72-78 | there are no pairs exactly when no root has an item |
| Slides.ItemsFallBackToLi | assets/comeet-slider.js:74-75 | a root's items are its position elements when it has any, and otherwise its `li` elements; either way they lie inside the root |
| Slides.FallbackStaysInItem | assets/comeet-slider.js:63-65 | the fallback click lands on the item or inside it |
| Slides.InitSliderFromRoots | assets/comeet-slider.js:71-99 | with no pair it warns and changes nothing; otherwise the carousel (one slide per pair, in order) is the first child, the navigation comes right after it, the old children follow, and every root is hidden |
| Seqs.MapFilter | comeet-slider-helper.php:183-210 | the loop keeps the mapped elements that pass the test, in order |
| Seqs.MapEach | assets/comeet-slider.js:86 | the loop maps every element, in order |
| Seqs.FlatMapEach | assets/comeet-slider.js:73-77 | the nested loop gives the flat map |
| Seqs.UpdateEach | comeet-slider-helper.php:114 | the in-place loop applies the function to every element |
| Text.TrimBySpec | comeet-slider-helper.php:117 | trimming gives the slice between the first and the last character that is not trimmed |
| Text.JoinSplit | comeet-slider-helper.php:119 | joining the pieces of `explode` with the separator gives back the text |
| Text.SplitPartsHaveNoSeparator | comeet-slider-helper.php:119 | no piece of `explode` contains the separator |
| Text.SplitSecondPiece | comeet-slider-helper.php:119 | with the first separator at i and the next one (or the end) at j, `explode`'s second piece is the text between them, a third piece exists exactly when j is a separator, and the pieces after the first are the explode of the rest |
| Text.SplitThirdPiece | comeet-slider-helper.php:119 | with the first two separators at i and j and the next one (or the end) at k, `explode` has a third piece and it is the text between j and k |
| Text.CollapseRunsSkeleton | comeet-slider-helper.php:117 | collapsing whitespace keeps every other character, in order |
| Text.CollapseRunsNoAdjacent | comeet-slider-helper.php:117 | after collapsing, no two whitespace characters are adjacent |
| Text.TrimBounds | comeet-slider-helper.php:117 | the trimmed text is a slice of the text with only trim characters before it and after it |
| Text.TrimKeepsSkeleton | assets/comeet-slider.js:40 | trimming keeps every non-whitespace character, in order |
| Dom.QueryIsFirstOfQueryAll | assets/comeet-slider.js:21 | `querySelector` gives the first result of `querySelectorAll` |

## Left out

- `waitForAny` (assets/comeet-slider.js:4-19) and `boot` (118-135): mutation observers, timers, promises and the root selector of the page are not modelled. `InitSliderFromRoots` takes the roots as given.
- Swiper (assets/comeet-slider.js:101-115): a third-party carousel library and its layout options.
- `absoluteUrl` (assets/comeet-slider.js:28-30): URL parsing is a parameter `resolve` that may fail.
- `home_url`: a parameter `homeUrl`.
- The HTTP request and `DOMDocument` parsing in `comeet_scrape_jobs`: the response is an input, and parsing is a parameter `parse`.
- The accessors of the third-party `Comeet` class (comeet-slider-helper.php:89-106) and its exceptions: its records are an input of `FetchJobs`.
- WordPress hooks: `apply_filters` is the identity, except that the category table is a parameter everywhere. `add_shortcode`, `esc_attr` and `esc_html` are not modelled.
- Presentation is not modelled: the markup, inline CSS, icons and colours, Hebrew labels, the lime border and its timer, the console and `error_log` output.
- The debug shortcodes (comeet-slider-helper.php:879-926): diagnostic output only.
- The placeholder job lists (comeet-slider-helper.php:240-262 and 569-573): each is a constant that the shortcodes use when there are no jobs.
- PHP array keys: a numeric-string category such as "7" becomes an integer key, so a card (`data-category="7"`) and its group still match. The model keeps categories as strings.
- Hiding a card sets `display = "none !important"`, which CSSOM ignores; the other inline styles hide the card. The model records only whether each card is shown.
- `Filters.FilterContainer.Click`: the `preventDefault` and `stopPropagation` calls and the background styles of the buttons are not modelled.
- The `try`/`catch` blocks around `querySelector` and `dispatchEvent` in the slider: selectors here cannot fail, and dispatch is recorded as a log.
- `InitUltra`: the retries, up to ten attempts 500 ms apart, while the container is missing are not modelled. One attempt is modelled.
- `Filters.ButtonCountIsShownCount`: requires that no job category is literally "all"; a category named "all" would show every card.
