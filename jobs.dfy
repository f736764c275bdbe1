/** Job records and the clean-up pass of `comeet_fetch_jobs`: whitespace in a
    title is collapsed, a compound "Title · Location · Type" title is split
    and its parts moved into empty `location` and `type` fields, and every
    record gets a category. */
module Jobs {
  import opened Wrappers
  import opened Text
  import opened Seqs
  import opened Categorizer

  /** A job as a PHP associative array; a field is `None` when the key is
      missing (or null). */
  datatype JobRecord = JobRecord(
    title: Option<string>,
    location: Option<string>,
    jobType: Option<string>,
    link: Option<string>,
    category: Option<string>)

  /** PHP's `empty()` on a string field: missing, "" and "0" are all empty. */
  predicate IsEmpty(v: Option<string>) {
    v.None? || v.value == "" || v.value == "0"
  }

  /** `trim(preg_replace('/\s+/', ' ', $title))`. */
  function CleanTitle(s: string): string {
    PhpTrim(CollapseRuns(s, IsPcreSpace, 1))
  }

  /** What `CleanTitle` produces: single plain spaces between words and nothing
      `trim` would strip at either end. */
  predicate IsCleanTitle(t: string) {
    && NoAdjacent(t, IsPcreSpace)
    && OnlyPlainSpaces(t, IsPcreSpace)
    && (t == [] || (!IsPhpTrimChar(t[0]) && !IsPhpTrimChar(t[|t| - 1])))
  }

  /** The part after the first middle dot is taken as a location only when it
      says "Office" or "Hybrid" (case-sensitive `strpos`). */
  predicate MentionsWorkplace(s: string) {
    Contains(s, "Office") || Contains(s, "Hybrid")
  }

  /** The split step, applied to a record whose title has been cleaned to `title`. */
  function SplitCompound(job: JobRecord, title: string): JobRecord {
    var parts := Split(title, MiddleDot);
    if |parts| <= 1 then job.(title := Some(title))
    else
      var locationType := PhpTrim(parts[1]);
      job.(title := Some(PhpTrim(parts[0])),
           location := if IsEmpty(job.location) && MentionsWorkplace(locationType)
                       then Some(locationType) else job.location,
           jobType := if IsEmpty(job.jobType) && |parts| > 2
                      then Some(PhpTrim(parts[2])) else job.jobType)
  }

  /** The title part of one iteration of the clean-up loop: collapse and trim
      a non-empty title, then split a compound one. */
  function Tidy(job: JobRecord): (r: JobRecord)
    ensures r.link == job.link && r.category == job.category
    ensures !IsEmpty(job.location) ==> r.location == job.location
    ensures !IsEmpty(job.jobType) ==> r.jobType == job.jobType
    ensures IsEmpty(job.title) ==>
              r.title == job.title && r.location == job.location && r.jobType == job.jobType
    ensures !IsEmpty(job.title) ==> r.title.Some?
  {
    if IsEmpty(job.title) then job else SplitCompound(job, CleanTitle(job.title.value))
  }

  /** One iteration of the clean-up loop of `comeet_fetch_jobs`: tidy, then
      categorise by the resulting title (missing title counts as ""). */
  function NormalizeJob(table: seq<CategoryRule>, job: JobRecord): (r: JobRecord)
    ensures r.category == Some(Categorize(table, r.title.GetOr(""))) && r.link == job.link
    ensures var t := Tidy(job); r.title == t.title && r.location == t.location && r.jobType == t.jobType
  {
    var t := Tidy(job);
    t.(category := Some(Categorize(table, t.title.GetOr(""))))
  }

  /** The clean-up loop: `foreach ($jobs as &$job)` rewrites each record in place. */
  method NormalizeJobs(table: seq<CategoryRule>, jobs: array<JobRecord>)
    modifies jobs
    ensures forall i :: 0 <= i < jobs.Length ==> jobs[i] == NormalizeJob(table, old(jobs[i]))
  {
    UpdateEach(jobs, job => NormalizeJob(table, job));
  }

  /** `comeet_fetch_jobs`: the records of the job-data provider, or the scraped
      ones when the provider gave none, each cleaned up and categorised. */
  method FetchJobs(table: seq<CategoryRule>, provided: seq<JobRecord>, scraped: seq<JobRecord>)
    returns (jobs: seq<JobRecord>)
    ensures var source := if provided == [] then scraped else provided;
      |jobs| == |source| && forall i :: 0 <= i < |jobs| ==> jobs[i] == NormalizeJob(table, source[i])
  {
    var source := provided;
    if source == [] {
      source := scraped;
    }
    var a := new JobRecord[|source|](i requires 0 <= i < |source| => source[i]);
    NormalizeJobs(table, a);
    jobs := a[..];
  }

  // ---------------------------------------------------------------------------
  // Properties of the clean-up

  /** Whitespace collapse: the cleaned title has single plain spaces only and
      nothing to trim at either end, and it is a slice of the collapsed title. */
  lemma CleanTitleIsClean(s: string)
    ensures IsCleanTitle(CleanTitle(s))
  {
    var c := CollapseRuns(s, IsPcreSpace, 1);
    CollapseRunsNoAdjacent(s, IsPcreSpace, 1);
    CollapseAllPlainSpaces(s, IsPcreSpace);
    TrimBySpec(c, IsPhpTrimChar);
    var i, j :| 0 <= i <= j <= |c| && CleanTitle(s) == c[i..j]
      && (CleanTitle(s) == [] || (!IsPhpTrimChar(c[i..j][0]) && !IsPhpTrimChar(c[i..j][|c[i..j]| - 1])));
    SliceKeepsCollapsed(c, IsPcreSpace, i, j);
  }

  /** A clean title is its own clean-up. */
  lemma CleanTitleFixpoint(t: string)
    requires IsCleanTitle(t)
    ensures CleanTitle(t) == t
  {
    CollapseRunsFixpoint(t, IsPcreSpace, 1);
    TrimByUntrimmed(t, IsPhpTrimChar);
  }

  /** Trimming a slice of a clean title gives a clean title. */
  lemma TrimmedSliceIsClean(t: string, i: nat, j: nat)
    requires IsCleanTitle(t) && i <= j <= |t|
    ensures IsCleanTitle(PhpTrim(t[i..j]))
  {
    var u := t[i..j];
    SliceKeepsCollapsed(t, IsPcreSpace, i, j);
    TrimBySpec(u, IsPhpTrimChar);
    var a, b :| 0 <= a <= b <= |u| && PhpTrim(u) == u[a..b]
      && (PhpTrim(u) == [] || (!IsPhpTrimChar(u[a..b][0]) && !IsPhpTrimChar(u[a..b][|u[a..b]| - 1])));
    SliceKeepsCollapsed(u, IsPcreSpace, a, b);
  }

  /** A character that is not whitespace is in the cleaned title
      only if it was in the title. */
  lemma CleanTitleKeepsAbsent(s: string, c: char)
    requires !IsPcreSpace(c) && c !in s
    ensures c !in CleanTitle(s)
  {
    var col := CollapseRuns(s, IsPcreSpace, 1);
    CollapseRunsSkeleton(s, IsPcreSpace, 1);
    SkeletonMembers(s, IsPcreSpace, c);
    SkeletonMembers(col, IsPcreSpace, c);
    TrimBySpec(col, IsPhpTrimChar);
    var i, j :| 0 <= i <= j <= |col| && CleanTitle(s) == col[i..j];
    assert forall k :: 0 <= k < j - i ==> col[i..j][k] == col[i + k];
  }

  /** A title without a middle dot is only cleaned up: location and type stay. */
  lemma TitleWithoutSeparator(table: seq<CategoryRule>, job: JobRecord)
    requires !IsEmpty(job.title) && MiddleDot !in job.title.value
    ensures var r := NormalizeJob(table, job);
      r.title == Some(CleanTitle(job.title.value))
      && r.location == job.location && r.jobType == job.jobType
  {
    CleanTitleKeepsAbsent(job.title.value, MiddleDot);
    SplitWithoutSeparator(CleanTitle(job.title.value), MiddleDot);
  }

  /** A title with a middle dot becomes the trimmed text before the first one. */
  lemma CompoundTitleKeepsFirstSegment(table: seq<CategoryRule>, job: JobRecord, i: nat)
    requires !IsEmpty(job.title)
    requires var t := CleanTitle(job.title.value); i < |t| && t[i] == MiddleDot && MiddleDot !in t[..i]
    ensures NormalizeJob(table, job).title == Some(PhpTrim(CleanTitle(job.title.value)[..i]))
  {
    SplitFirstPiece(CleanTitle(job.title.value), MiddleDot, i);
  }

  /** The location rule for any title: with the first middle dot of the
      cleaned title at `i` and the next one (or the end) at `j`, the trimmed
      text between them becomes the location when the location is empty and
      the text mentions Office or Hybrid; with no second dot the type stays. */
  lemma CompoundTitleLocation(table: seq<CategoryRule>, job: JobRecord, i: nat, j: nat)
    requires !IsEmpty(job.title)
    requires var t := CleanTitle(job.title.value);
      i < j <= |t| && t[i] == MiddleDot && MiddleDot !in t[..i]
      && MiddleDot !in t[i + 1..j] && (j == |t| || t[j] == MiddleDot)
    ensures var t := CleanTitle(job.title.value); var piece := PhpTrim(t[i + 1..j]);
      var r := NormalizeJob(table, job);
      && r.location == (if IsEmpty(job.location) && MentionsWorkplace(piece) then Some(piece) else job.location)
      && (j == |t| ==> r.jobType == job.jobType)
  {
    SplitSecondPiece(CleanTitle(job.title.value), MiddleDot, i, j);
  }

  /** The type rule for any title: with the first two middle dots of the
      cleaned title at `i` and `j` and the next one (or the end) at `k`, an
      empty type becomes the trimmed text between `j` and `k`. */
  lemma CompoundTitleType(table: seq<CategoryRule>, job: JobRecord, i: nat, j: nat, k: nat)
    requires !IsEmpty(job.title)
    requires var t := CleanTitle(job.title.value);
      i < j < k <= |t| && t[i] == MiddleDot && MiddleDot !in t[..i]
      && t[j] == MiddleDot && MiddleDot !in t[i + 1..j]
      && MiddleDot !in t[j + 1..k] && (k == |t| || t[k] == MiddleDot)
    ensures var t := CleanTitle(job.title.value);
      NormalizeJob(table, job).jobType == (if IsEmpty(job.jobType) then Some(PhpTrim(t[j + 1..k])) else job.jobType)
  {
    var t := CleanTitle(job.title.value);
    SplitCompoundType(job, t, i, j, k);
    assert Tidy(job) == SplitCompound(job, t);
  }

  /** The type rule of the split step on a cleaned title `t`. */
  lemma SplitCompoundType(job: JobRecord, t: string, i: nat, j: nat, k: nat)
    requires i < j < k <= |t| && t[i] == MiddleDot && MiddleDot !in t[..i]
    requires t[j] == MiddleDot && MiddleDot !in t[i + 1..j]
    requires MiddleDot !in t[j + 1..k] && (k == |t| || t[k] == MiddleDot)
    ensures SplitCompound(job, t).jobType == (if IsEmpty(job.jobType) then Some(PhpTrim(t[j + 1..k])) else job.jobType)
  {
    SplitThirdPiece(t, MiddleDot, i, j, k);
  }

  /** A cleaned-up title is clean and has no middle dot left. */
  lemma NormalizedTitleIsSimple(table: seq<CategoryRule>, job: JobRecord)
    requires !IsEmpty(job.title)
    ensures var r := NormalizeJob(table, job);
      r.title.Some? && IsCleanTitle(r.title.value) && MiddleDot !in r.title.value
  {
    TidiedTitleIsSimple(job);
  }

  /** The same for the tidy step alone. */
  lemma TidiedTitleIsSimple(job: JobRecord)
    requires !IsEmpty(job.title)
    ensures var r := Tidy(job);
      r.title.Some? && IsCleanTitle(r.title.value) && MiddleDot !in r.title.value
  {
    var t := CleanTitle(job.title.value);
    CleanTitleIsClean(job.title.value);
    var parts := Split(t, MiddleDot);
    if |parts| > 1 {
      var u := PhpTrim(parts[0]);
      SplitFirstIsPrefix(t, MiddleDot);
      TrimmedSliceIsClean(t, 0, |parts[0]|);
      SplitPartsHaveNoSeparator(t, MiddleDot);
      TrimBySpec(parts[0], IsPhpTrimChar);
      var a, b :| 0 <= a <= b <= |parts[0]| && u == parts[0][a..b];
      assert forall k :: 0 <= k < |u| ==> u[k] == parts[0][a + k];
    } else {
      SplitSinglePiece(t, MiddleDot);
    }
  }

  /** Cleaning up twice is cleaning up once. */
  lemma NormalizeJobIdempotent(table: seq<CategoryRule>, job: JobRecord)
    ensures NormalizeJob(table, NormalizeJob(table, job)) == NormalizeJob(table, job)
  {
    var r := NormalizeJob(table, job);
    if !IsEmpty(job.title) && !IsEmpty(r.title) {
      NormalizedTitleIsSimple(table, job);
      var u := r.title.value;
      CleanTitleFixpoint(u);
      SplitWithoutSeparator(u, MiddleDot);
    }
  }

  // ---------------------------------------------------------------------------
  // Compound titles "Segment · Segment · ..."

  /** A segment of a compound title: a non-empty clean title without middle dots. */
  predicate IsSegment(w: string) {
    w != [] && IsCleanTitle(w) && MiddleDot !in w
  }

  /** The segments, joined by " · ". */
  function Compound(segments: seq<string>): string
    requires |segments| >= 1
  {
    if |segments| == 1 then segments[0] else segments[0] + " \U{00B7} " + Compound(segments[1..])
  }

  /** A compound title starts with the first character of its first segment and
      ends with the last character of its last segment. */
  lemma {:induction false} CompoundEnds(segments: seq<string>)
    requires |segments| >= 1 && forall k :: 0 <= k < |segments| ==> segments[k] != []
    ensures var c := Compound(segments); var last := segments[|segments| - 1];
      |c| >= |segments[0]| && |c| >= |last| && c[0] == segments[0][0] && c[|c| - 1] == last[|last| - 1]
  {
    if |segments| > 1 {
      CompoundEnds(segments[1..]);
    }
  }

  /** Piece `k` of a compound title: segment `k` with the spaces next to its dots. */
  function Piece(segments: seq<string>, k: nat): string
    requires k < |segments|
  {
    (if k > 0 then " " else "") + segments[k] + (if k < |segments| - 1 then " " else "")
  }

  /** Splitting "w · tail" when `w` has no middle dot. */
  lemma SplitSegmentThenRest(w: string, tail: string)
    requires MiddleDot !in w
    ensures var p := Split(tail, MiddleDot);
      Split(w + " \U{00B7} " + tail, MiddleDot) == [w + " "] + ([" " + p[0]] + p[1..])
  {
    var x := w + " ";
    assert w + " \U{00B7} " + tail == x + [MiddleDot] + (" " + tail);
    SplitAt(x, " " + tail, MiddleDot);
    assert (" " + tail)[1..] == tail;
  }

  /** The pieces `explode('·', ...)` yields for a compound title. */
  lemma {:induction false} SplitCompoundTitle(segments: seq<string>)
    requires |segments| >= 1 && forall k :: 0 <= k < |segments| ==> MiddleDot !in segments[k]
    ensures var parts := Split(Compound(segments), MiddleDot);
      |parts| == |segments| && forall k :: 0 <= k < |parts| ==> parts[k] == Piece(segments, k)
  {
    if |segments| == 1 {
      SplitWithoutSeparator(segments[0], MiddleDot);
    } else {
      var rest := segments[1..];
      SplitCompoundTitle(rest);
      var p := Split(Compound(rest), MiddleDot);
      SplitSegmentThenRest(segments[0], Compound(rest));
      var parts := Split(Compound(segments), MiddleDot);
      assert parts == [segments[0] + " "] + ([" " + p[0]] + p[1..]);
      forall k | 0 <= k < |parts|
        ensures parts[k] == Piece(segments, k)
      {
        if k == 1 {
          assert p[0] == Piece(rest, 0);
        } else if k > 1 {
          assert parts[k] == p[k - 1] == Piece(rest, k - 1);
        }
      }
    }
  }

  /** A compound title is already clean. */
  lemma {:induction false} CompoundIsClean(segments: seq<string>)
    requires |segments| >= 1 && forall k :: 0 <= k < |segments| ==> IsSegment(segments[k])
    ensures IsCleanTitle(Compound(segments))
  {
    if |segments| > 1 {
      var rest := segments[1..];
      CompoundIsClean(rest);
      var tail := Compound(rest);
      var w := segments[0];
      var sep := " \U{00B7} ";
      NoAdjacentAppend(sep, tail, IsPcreSpace);
      NoAdjacentAppend(w, sep + tail, IsPcreSpace);
      OnlyPlainSpacesAppend(sep, tail, IsPcreSpace);
      OnlyPlainSpacesAppend(w, sep + tail, IsPcreSpace);
      CompoundEnds(rest);
      CompoundEnds(segments);
      var c := Compound(segments);
      assert c == w + (sep + tail);
      assert c[0] == w[0];
      assert c[|c| - 1] == tail[|tail| - 1];
    }
  }

  /** A title that cleans up to "Title · Location · Type ...": the title is
      the first segment, the second becomes the location when it names an
      office or hybrid work, the third becomes the type, later segments are
      dropped, and the category comes from the first segment. Location and
      type that were already set are kept. */
  lemma CompoundTitleNormalized(table: seq<CategoryRule>, job: JobRecord, segments: seq<string>)
    requires |segments| >= 2 && forall k :: 0 <= k < |segments| ==> IsSegment(segments[k])
    requires !IsEmpty(job.title) && CleanTitle(job.title.value) == Compound(segments)
    ensures var r := NormalizeJob(table, job);
      && r.title == Some(segments[0])
      && r.location == (if IsEmpty(job.location) && MentionsWorkplace(segments[1])
                        then Some(segments[1]) else job.location)
      && r.jobType == (if IsEmpty(job.jobType) && |segments| > 2 then Some(segments[2]) else job.jobType)
      && r.category == Some(Categorize(table, segments[0]))
  {
    TidyCompoundTitle(job, segments);
    var t := Tidy(job);
    assert NormalizeJob(table, job) == t.(category := Some(Categorize(table, segments[0])));
  }

  /** The tidy step on a compound title. */
  lemma TidyCompoundTitle(job: JobRecord, segments: seq<string>)
    requires |segments| >= 2 && forall k :: 0 <= k < |segments| ==> IsSegment(segments[k])
    requires !IsEmpty(job.title) && CleanTitle(job.title.value) == Compound(segments)
    ensures var r := Tidy(job);
      && r.title == Some(segments[0])
      && r.location == (if IsEmpty(job.location) && MentionsWorkplace(segments[1])
                        then Some(segments[1]) else job.location)
      && r.jobType == (if IsEmpty(job.jobType) && |segments| > 2 then Some(segments[2]) else job.jobType)
  {
    SplitCompoundOfCompound(job, segments);
    assert Tidy(job) == SplitCompound(job, Compound(segments));
  }

  /** The split step on a compound title, before any categorisation. */
  lemma SplitCompoundOfCompound(job: JobRecord, segments: seq<string>)
    requires |segments| >= 2 && forall k :: 0 <= k < |segments| ==> IsSegment(segments[k])
    ensures var r := SplitCompound(job, Compound(segments));
      && r.title == Some(segments[0])
      && r.location == (if IsEmpty(job.location) && MentionsWorkplace(segments[1])
                        then Some(segments[1]) else job.location)
      && r.jobType == (if IsEmpty(job.jobType) && |segments| > 2 then Some(segments[2]) else job.jobType)
  {
    SplitCompoundTitle(segments);
    var parts := Split(Compound(segments), MiddleDot);
    TrimmedPiece(segments, parts, 0);
    TrimmedPiece(segments, parts, 1);
    if |segments| > 2 {
      TrimmedPiece(segments, parts, 2);
    }
  }

  /** Trimming a piece of a compound title gives back its segment. */
  lemma TrimmedPiece(segments: seq<string>, parts: seq<string>, k: nat)
    requires k < |segments| == |parts| && IsSegment(segments[k])
    requires parts[k] == Piece(segments, k)
    ensures PhpTrim(parts[k]) == segments[k]
  {
    TrimPadded(if k > 0 then " " else "", segments[k], if k < |segments| - 1 then " " else "", IsPhpTrimChar);
  }

  /** A worked example: a three-part compound title. */
  lemma SeniorBackendEngineerExample(table: seq<CategoryRule>)
    ensures var job := JobRecord(Some("Senior Backend Engineer" + " \U{00B7} " + "Tel Aviv Office" + " \U{00B7} " + "Full-time"),
                                 Some(""), Some(""), Some(""), None);
      var r := NormalizeJob(table, job);
      r.title == Some("Senior Backend Engineer") && r.location == Some("Tel Aviv Office")
      && r.jobType == Some("Full-time")
  {
    var segments := ["Senior Backend Engineer", "Tel Aviv Office", "Full-time"];
    ExampleSegments(segments);
    CompoundOfThree(segments[0], segments[1], segments[2]);
    assert OccursAt(segments[1], "Office", 9);
    var t := Compound(segments);
    var job := JobRecord(Some(t), Some(""), Some(""), Some(""), None);
    CompoundIsClean(segments);
    CleanTitleFixpoint(t);
    assert t != "" && t != "0" by {
      assert t == segments[0] + " \U{00B7} " + Compound(segments[1..]);
    }
    CompoundTitleNormalized(table, job, segments);
  }

  lemma ExampleSegments(segments: seq<string>)
    requires segments == ["Senior Backend Engineer", "Tel Aviv Office", "Full-time"]
    ensures forall k :: 0 <= k < |segments| ==> IsSegment(segments[k])
  {
    ExampleTitleSegment();
    ExampleLocationSegment();
    ExampleTypeSegment();
  }

  lemma ExampleTitleSegment() ensures IsSegment("Senior Backend Engineer") { }
  lemma ExampleLocationSegment() ensures IsSegment("Tel Aviv Office") { }
  lemma ExampleTypeSegment() ensures IsSegment("Full-time") { }

  /** Three segments joined by " · ". */
  lemma CompoundOfThree(a: string, b: string, c: string)
    ensures Compound([a, b, c]) == a + " \U{00B7} " + b + " \U{00B7} " + c
  {
    var sep := " \U{00B7} ";
    assert [a, b, c][1..] == [b, c];
    assert [b, c][1..] == [c];
    assert Compound([b, c]) == b + sep + c;
    assert a + sep + (b + sep + c) == a + sep + b + sep + c;
  }
}
