/**
 * The upload controller's pure parts: the preview count builder, the
 * required-field check and its message, the grading configuration taken from
 * the upload form, and the numbering of stored points. Saving to and reading
 * from the database are left out; what is stored is described by functions.
 */
module Upload {
  import opened Base
  import opened Text
  import opened Numbers
  import opened Grades
  import opened Courses
  import opened Parser
  import opened Aggregates

  // ---------- Preview counts ----------

  /**
   * A criterion as the count builder sees it. The numeric fields are `None`
   * when absent or not a finite number; `summaryStats` is `None` when it is not
   * an array, else its length.
   */
  datatype CriterionEntry = CriterionEntry(questionNo: Option<real>, idx: Option<real>, summaryStats: Option<nat>)

  /** One entry of the preview list. */
  datatype PreviewCount = PreviewCount(questionNo: real, summaryRows: nat)

  /** The preview entry of the criterion at 1-based position `position`. */
  function CountOf(e: CriterionEntry, position: nat): (c: PreviewCount)
    ensures e.questionNo.Some? ==> c.questionNo == e.questionNo.value
    ensures e.questionNo.None? && e.idx.Some? ==> c.questionNo == e.idx.value
    ensures e.questionNo.None? && e.idx.None? ==> c.questionNo == position as real
    ensures c.summaryRows == e.summaryStats.GetOr(0)
  {
    var qn := if e.questionNo.Some? then e.questionNo.value
              else if e.idx.Some? then e.idx.value
              else position as real;
    PreviewCount(qn, e.summaryStats.GetOr(0))
  }

  /** The preview list as a whole: one entry per criterion, in order; no list at all counts as empty. */
  function CountsOf(criteria: Option<seq<CriterionEntry>>): (out: seq<PreviewCount>)
    ensures |out| == |criteria.GetOr([])|
    ensures forall i :: 0 <= i < |out| ==> out[i] == CountOf(criteria.value[i], i + 1)
  {
    var cs := criteria.GetOr([]);
    seq(|cs|, i requires 0 <= i < |cs| => CountOf(cs[i], i + 1))
  }

  /**
   * `computeCountsFromParsed`: builds the list by pushing one entry per
   * criterion; the fallback question number is the list's length plus one at
   * the time of the push.
   */
  method ComputeCounts(criteria: Option<seq<CriterionEntry>>) returns (out: seq<PreviewCount>)
    ensures out == CountsOf(criteria)
  {
    var cs := if criteria.Some? then criteria.value else [];
    out := [];
    for i := 0 to |cs|
      invariant |out| == i
      invariant forall k :: 0 <= k < i ==> out[k] == CountOf(cs[k], k + 1)
    {
      var c := cs[i];
      var qn := if c.questionNo.Some? then c.questionNo.value
                else if c.idx.Some? then c.idx.value
                else (|out| + 1) as real;
      var rows := if c.summaryStats.Some? then c.summaryStats.value else 0;
      out := out + [PreviewCount(qn, rows)];
    }
  }

  /** How a parsed criterion reaches the count builder: its number is always present and it has no `idx`. */
  function EntryOf(c: Criterion): CriterionEntry {
    CriterionEntry(Some(c.questionNo), None, Some(|c.summaryStats|))
  }

  function Entries(doc: ParsedDocument): (es: seq<CriterionEntry>)
    ensures |es| == |doc.criteria|
    ensures forall i :: 0 <= i < |es| ==> es[i] == EntryOf(doc.criteria[i])
  {
    seq(|doc.criteria|, i requires 0 <= i < |doc.criteria| => EntryOf(doc.criteria[i]))
  }

  /** For a parsed document the fallbacks never apply: each entry is the question's number and row count. */
  lemma ParsedCounts(doc: ParsedDocument)
    ensures |CountsOf(Some(Entries(doc)))| == |doc.criteria|
    ensures forall i :: 0 <= i < |doc.criteria| ==>
      CountsOf(Some(Entries(doc)))[i] == PreviewCount(doc.criteria[i].questionNo, |doc.criteria[i].summaryStats|)
  {
  }

  /** Sum of the `summaryRows` of a preview list. */
  function TotalRows(cs: seq<PreviewCount>): nat
    decreases |cs|
  {
    if cs == [] then 0 else cs[0].summaryRows + TotalRows(cs[1..])
  }

  /** A parsed summary row as stored: team, recipient and the values of its point records. */
  function Stored(r: SummaryRow): StoredSummary {
    StoredSummary(r.team, r.recipient, r.points)
  }

  /** The summary rows stored for a list of criteria, criterion by criterion. */
  function StoredRows(cs: seq<Criterion>): seq<StoredSummary>
    decreases |cs|
  {
    if cs == [] then []
    else seq(|cs[0].summaryStats|, k requires 0 <= k < |cs[0].summaryStats| => Stored(cs[0].summaryStats[k])) + StoredRows(cs[1..])
  }

  /** The preview counts add up to the number of summary rows that saving the document stores. */
  lemma {:induction false} PreviewCountsStoredRows(doc: ParsedDocument)
    ensures TotalRows(CountsOf(Some(Entries(doc)))) == |StoredRows(doc.criteria)|
  {
    var cs := doc.criteria;
    ParsedCounts(doc);
    assert CountsOf(Some(Entries(doc)))
        == seq(|cs|, i requires 0 <= i < |cs| => PreviewCount(cs[i].questionNo, |cs[i].summaryStats|));
    CountsAddUp(cs);
  }

  lemma {:induction false} CountsAddUp(cs: seq<Criterion>)
    ensures TotalRows(seq(|cs|, i requires 0 <= i < |cs| => PreviewCount(cs[i].questionNo, |cs[i].summaryStats|)))
         == |StoredRows(cs)|
    decreases |cs|
  {
    var counts := seq(|cs|, i requires 0 <= i < |cs| => PreviewCount(cs[i].questionNo, |cs[i].summaryStats|));
    if cs != [] {
      var rest := cs[1..];
      CountsAddUp(rest);
      assert counts[1..] == seq(|rest|, i requires 0 <= i < |rest| => PreviewCount(rest[i].questionNo, |rest[i].summaryStats|));
    }
  }

  // ---------- Required fields ----------

  /** The fields an upload cannot do without, in the order the message lists them. */
  datatype Field = CourseCode | CourseTitle | SessionName

  function FieldName(f: Field): string {
    match f
    case CourseCode => "Course code"
    case CourseTitle => "Course title"
    case SessionName => "Session name"
  }

  function Rank(f: Field): nat {
    match f
    case CourseCode => 0
    case CourseTitle => 1
    case SessionName => 2
  }

  /** The value of field `f` in a parsed document. */
  function FieldValue(doc: ParsedDocument, f: Field): string {
    match f
    case CourseCode => doc.course.code
    case CourseTitle => doc.course.title
    case SessionName => doc.sessionName
  }

  /** The empty required fields, each once, in the fixed order code, title, session name. */
  function MissingFields(doc: ParsedDocument): (m: seq<Field>)
    ensures forall f :: f in m <==> FieldValue(doc, f) == ""
    ensures forall i, j :: 0 <= i < j < |m| ==> Rank(m[i]) < Rank(m[j])
  {
    (if doc.course.code == "" then [CourseCode] else [])
    + (if doc.course.title == "" then [CourseTitle] else [])
    + (if doc.sessionName == "" then [SessionName] else [])
  }

  const MissingPrefix: string := "CSV is missing required fields: "

  function Names(fs: seq<Field>): (ns: seq<string>)
    ensures |ns| == |fs|
    ensures forall k :: 0 <= k < |ns| ==> ns[k] == FieldName(fs[k])
  {
    seq(|fs|, k requires 0 <= k < |fs| => FieldName(fs[k]))
  }

  /** The rejection message: the prefix and the missing fields' names joined with ", ". */
  function MissingMessage(fs: seq<Field>): (m: string)
    ensures StartsWith(m, MissingPrefix)
    ensures fs == [] <==> m == MissingPrefix
  {
    MissingPrefix + Join(Names(fs), ", ")
  }

  /**
   * The upload's outcome once parsing is done: a parse error is reported with
   * its message; otherwise the document is accepted exactly when no required
   * field is empty.
   */
  function CheckUpload(parsed: Result<ParsedDocument, ParseError>): (r: Result<ParsedDocument, string>)
    ensures parsed.Failure? ==> r == Failure(ErrorMessage(parsed.error))
    ensures parsed.Success? ==>
      (r.Success? <==> parsed.value.course.code != "" && parsed.value.course.title != "" && parsed.value.sessionName != "")
    ensures r.Success? ==> parsed == Success(r.value)
    ensures parsed.Success? && r.Failure? ==> r.error == MissingMessage(MissingFields(parsed.value))
  {
    match parsed
    case Failure(e) => Failure(ErrorMessage(e))
    case Success(doc) =>
      var missing := MissingFields(doc);
      if missing != [] then
        Failure(MissingMessage(missing))
      else
        assert FieldValue(doc, CourseCode) != "" && FieldValue(doc, CourseTitle) != "" && FieldValue(doc, SessionName) != "";
        Success(doc)
  }

  /** The preview response for an uploaded grid: the counts, or the message of the first check that fails. */
  function Preview(g: seq<seq<string>>): (r: Result<seq<PreviewCount>, string>)
    ensures Parse(g).Failure? ==> r == Failure(ErrorMessage(Parse(g).error))
    ensures Parse(g).Success? && MissingFields(Parse(g).value) != [] ==>
      r == Failure(MissingMessage(MissingFields(Parse(g).value)))
    ensures r.Success? ==>
      Parse(g).Success? && MissingFields(Parse(g).value) == [] && r.value == CountsOf(Some(Entries(Parse(g).value)))
  {
    match CheckUpload(Parse(g))
    case Failure(e) => Failure(e)
    case Success(doc) => Success(CountsOf(Some(Entries(doc))))
  }

  /** The field list a rejection message names: the comma-separated items after the prefix, trimmed. */
  function ListedFields(message: string): seq<string> {
    if StartsWith(message, MissingPrefix) then SplitList(message[|MissingPrefix|..]) else []
  }

  /** Reading the list back out of a rejection message gives the names of exactly the missing fields, in order. */
  lemma MessageListsMissing(fs: seq<Field>)
    requires fs != []
    ensures ListedFields(MissingMessage(fs)) == Names(fs)
  {
    var ns := Names(fs);
    forall k | 0 <= k < |ns|
      ensures NoneOf(ns[k], {','})
    {
      FieldNameCommaFree(fs[k]);
    }
    var m := MissingMessage(fs);
    assert m == MissingPrefix + Join(ns, ", ");
    assert StartsWith(m, MissingPrefix);
    assert m[|MissingPrefix|..] == Join(ns, ", ");
    SplitListJoin(ns);
  }

  lemma FieldNameCommaFree(f: Field)
    ensures NoneOf(FieldName(f), {','})
  {
  }

  /** A document missing all three fields is rejected with all three names, in order. */
  lemma AllMissingMessage(doc: ParsedDocument)
    requires doc.course.code == "" && doc.course.title == "" && doc.sessionName == ""
    ensures CheckUpload(Success(doc)) == Failure(MissingPrefix + ("Course code" + ", " + "Course title" + ", " + "Session name"))
  {
    assert MissingFields(doc) == [CourseCode, CourseTitle, SessionName];
    ThreeNamesJoined();
  }

  lemma ThreeNamesJoined()
    ensures Join(Names([CourseCode, CourseTitle, SessionName]), ", ") == "Course code" + ", " + "Course title" + ", " + "Session name"
  {
    var a, b, c := "Course code", "Course title", "Session name";
    var ns := [a, b, c];
    assert Names([CourseCode, CourseTitle, SessionName]) == ns;
    var tail := [b, c];
    assert ns[1..] == tail;
    assert tail[1..] == [c];
    assert Join([c], ", ") == c;
    assert Join(tail, ", ") == b + ", " + c;
    assert Join(ns, ", ") == a + ", " + Join(tail, ", ");
    assert a + ", " + (b + ", " + c) == a + ", " + b + ", " + c;
  }

  // ---------- Grading configuration from the form ----------

  /** The grading fields of the upload form, as text; `None` when the field was not sent. */
  datatype UploadForm = UploadForm(paWeight: Option<string>, numCriteria: Option<string>, penaltyPercent: Option<string>)

  /** `Number(v ?? d) || fallback`, where a sent value is text and the default `d` a number. */
  function FieldNumber(v: Option<string>, d: real, fallback: real): real {
    match v
    case None => OrDefault(Some(d), fallback)
    case Some(s) => OrDefault(ToNumber(s), fallback)
  }

  /**
   * The configuration saved with an upload: PA weight defaults to 10, the
   * number of criteria to the number of parsed criteria, the penalty to 0; a
   * value that reads as zero or not as a number also takes the fallback (10 for
   * the PA weight, 0 otherwise).
   */
  function UploadConfig(form: UploadForm, criteriaCount: nat): (cfg: GradeConfig)
    ensures cfg.paWeight != 0.0
    ensures form.paWeight.None? ==> cfg.paWeight == 10.0
    ensures form.paWeight.Some? && Falsy(ToNumber(form.paWeight.value)) ==> cfg.paWeight == 10.0
    ensures form.paWeight.Some? && !Falsy(ToNumber(form.paWeight.value)) ==> cfg.paWeight == ToNumber(form.paWeight.value).value
    ensures form.numCriteria.None? ==> cfg.numCriteria == criteriaCount as real
    ensures form.numCriteria.Some? ==> cfg.numCriteria == ToNumber(form.numCriteria.value).GetOr(0.0)
    ensures form.penaltyPercent.Some? ==> cfg.penaltyPercent == ToNumber(form.penaltyPercent.value).GetOr(0.0)
    ensures form.penaltyPercent.None? ==> cfg.penaltyPercent == 0.0
  {
    GradeConfig(
      FieldNumber(form.paWeight, 10.0, 10.0),
      FieldNumber(form.penaltyPercent, 0.0, 0.0),
      FieldNumber(form.numCriteria, criteriaCount as real, 0.0))
  }

  /** The `grading_configs` row written for a configuration. */
  function StoredOf(cfg: GradeConfig): StoredConfig {
    StoredConfig(Some(cfg.paWeight), Some(cfg.penaltyPercent), Some(cfg.numCriteria))
  }

  /** The calculator reads back exactly the configuration the upload saved. */
  lemma ConfigRoundTrip(form: UploadForm, criteriaCount: nat)
    ensures LoadConfig(Some(StoredOf(UploadConfig(form, criteriaCount)))) == UploadConfig(form, criteriaCount)
  {
  }

  /** An empty form gives the defaults, with one criterion per parsed question. */
  lemma EmptyFormDefaults(criteriaCount: nat)
    ensures UploadConfig(UploadForm(None, None, None), criteriaCount) == GradeConfig(10.0, 0.0, criteriaCount as real)
  {
  }

  // ---------- Stored points ----------

  /** A `summary_points` record: the summary row's id, the 1-based position and the value (SQL NULL as `None`). */
  datatype PointRecord = PointRecord(summaryId: nat, idx: nat, value: Option<real>)

  /** The records inserted for a summary row's points: position `i` is stored with index `i + 1`. */
  function PointRecords(summaryId: nat, points: seq<Option<real>>): (rs: seq<PointRecord>)
    ensures |rs| == |points|
  {
    seq(|points|, i requires 0 <= i < |points| => PointRecord(summaryId, i + 1, points[i]))
  }

  /** The value stored under index `idx`, as a lookup finds it: `None` when there is no such record. */
  function PointAt(rs: seq<PointRecord>, idx: nat): Option<Option<real>>
    decreases |rs|
  {
    if rs == [] then None
    else if rs[0].idx == idx then Some(rs[0].value)
    else PointAt(rs[1..], idx)
  }

  /**
   * The indices are 1 to the number of points with no gaps: looking up index
   * `k` finds the `k`-th point, and no other index is stored.
   */
  lemma {:induction false} PointIndexRoundTrip(summaryId: nat, points: seq<Option<real>>, k: nat)
    ensures 1 <= k <= |points| ==> PointAt(PointRecords(summaryId, points), k) == Some(points[k - 1])
    ensures (k == 0 || k > |points|) ==> PointAt(PointRecords(summaryId, points), k) == None
    decreases |points|
  {
    var rs := PointRecords(summaryId, points);
    if k == 0 {
      NoIndexZero(rs);
    } else if points != [] && k != 1 {
      PointIndexRoundTrip(summaryId, points[1..], k - 1);
      ShiftedLookup(rs[1..], PointRecords(summaryId, points[1..]), k);
    }
  }

  /** No record is stored under index 0. */
  lemma {:induction false} NoIndexZero(rs: seq<PointRecord>)
    requires forall i :: 0 <= i < |rs| ==> rs[i].idx >= 1
    ensures PointAt(rs, 0) == None
    decreases |rs|
  {
    if rs != [] {
      NoIndexZero(rs[1..]);
    }
  }

  /** Lookups agree on two record lists whose indices differ by one, position for position. */
  lemma {:induction false} ShiftedLookup(a: seq<PointRecord>, b: seq<PointRecord>, k: nat)
    requires k >= 1 && |a| == |b|
    requires forall i :: 0 <= i < |a| ==> a[i].idx == b[i].idx + 1 && a[i].value == b[i].value
    ensures PointAt(a, k) == PointAt(b, k - 1)
    decreases |a|
  {
    if a != [] {
      ShiftedLookup(a[1..], b[1..], k);
    }
  }

  /** A parsed row's stored points end with a value: the highest index never holds NULL. */
  lemma LastStoredPointPresent(summaryId: nat, row: seq<string>)
    ensures var ps := ReadScores(row);
      ps != [] ==> PointAt(PointRecords(summaryId, ps), |ps|).Some? && PointAt(PointRecords(summaryId, ps), |ps|).value.Some?
  {
    var ps := ReadScores(row);
    PointIndexRoundTrip(summaryId, ps, |ps|);
  }
}
