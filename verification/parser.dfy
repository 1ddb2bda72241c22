/**
 * The TEAMMATES export reader: from the decoded grid to the course, the
 * session name, one criterion per "Question N" block with its summary rows,
 * and the list of participants who submitted nothing.
 */
module Parser {
  import opened Base
  import opened Text
  import opened Numbers
  import opened Scanner
  import opened Courses

  // ---------- Cell values ----------

  /** The `toInt` helper: blank and "no response" are absent; otherwise the number, absent when it is not one. */
  function ToInt(v: string): (r: Option<real>)
    ensures AllSpace(v) ==> r == None
    ensures Lower(Trim(v)) == "no response" ==> r == None
    ensures r.Some? <==> IsDecimal(Trim(v))
    ensures r.Some? ==> r == ParseDecimal(Trim(v))
  {
    var s := Lower(Trim(v));
    LowerCasedNumber(Trim(v));
    if s == "" || s == "no response" then None else ParseDecimal(s)
  }

  /** Reading the lower-cased text: the blank and "no response" markers are not numbers, and case does not matter otherwise. */
  lemma LowerCasedNumber(t: string)
    ensures Lower(t) == "" || Lower(t) == "no response" ==> !IsDecimal(t)
    ensures ParseDecimal(Lower(t)).Some? <==> IsDecimal(t)
    ensures ParseDecimal(Lower(t)).Some? ==> ParseDecimal(Lower(t)) == ParseDecimal(t)
  {
    LowerDecimal(t);
    ParseDecimalAccepts(Lower(t));
    assert !IsDecimal("no response") by {
      assert Unsigned("no response") == "no response";
      assert !IsDigit("no response"[0]);
    }
    assert !IsDecimal("");
  }

  /** A score printed as a whole number, with any padding, reads back as that number. */
  lemma ToIntReadsNumber(ws1: string, n: nat, ws2: string)
    requires AllSpace(ws1) && AllSpace(ws2)
    ensures ToInt(ws1 + NatToString(n) + ws2) == Some(n as real)
  {
    var d := NatToString(n);
    NatToStringDigits(n);
    PaddedDigitsTrim(ws1, d, ws2);
    DigitsNotWords(d);
    ParsePrinted(n);
    ToIntOfTrimmed(ws1 + d + ws2, d);
  }

  lemma PaddedDigitsTrim(ws1: string, d: string, ws2: string)
    requires AllSpace(ws1) && AllSpace(ws2) && d != [] && AllDigits(d)
    ensures Trim(ws1 + d + ws2) == d
  {
    assert IsDigit(d[0]) && IsDigit(d[|d| - 1]);
    TrimPadded(ws1, d, ws2);
  }

  /** Digits are unchanged by lower-casing and are not the "no response" marker. */
  lemma DigitsNotWords(d: string)
    requires d != [] && AllDigits(d)
    ensures Lower(d) == d && d != "no response"
  {
    forall i | 0 <= i < |d|
      ensures LowerChar(d[i]) == d[i]
    {
      assert IsDigit(d[i]);
    }
    assert IsDigit(d[0]);
  }

  lemma ToIntOfTrimmed(v: string, t: string)
    requires Trim(v) == t && Lower(t) == t && t != "" && t != "no response"
    ensures ToInt(v) == ParseDecimal(t)
  {
  }

  /** Column 4 of a data row: empty, a number, or text that is not a number. */
  datatype AverageCell = NoAverage | Average(value: real) | NotANumber

  /** `rr[4] ? Number(String(rr[4]).trim()) : null`: a non-empty cell is read as a number, blank as 0. */
  function ReadAverage(cell: string): (r: AverageCell)
    ensures r == NoAverage <==> cell == ""
    ensures cell != "" && AllSpace(cell) ==> r == Average(0.0)
    ensures !AllSpace(cell) ==> (r.Average? <==> IsDecimal(Trim(cell)))
    ensures r.Average? && !AllSpace(cell) ==> Some(r.value) == ParseDecimal(Trim(cell))
  {
    NumberOfTrimmed(cell);
    if cell == "" then NoAverage
    else
      match ToNumber(Trim(cell))
      case Some(v) => Average(v)
      case None => NotANumber
  }

  /** `Number` of the trimmed cell, in terms of the cell itself. */
  lemma NumberOfTrimmed(cell: string)
    ensures AllSpace(cell) ==> ToNumber(Trim(cell)) == Some(0.0)
    ensures !AllSpace(cell) ==> (ToNumber(Trim(cell)).Some? <==> IsDecimal(Trim(cell)))
    ensures !AllSpace(cell) && ToNumber(Trim(cell)).Some? ==> ToNumber(Trim(cell)) == ParseDecimal(Trim(cell))
  {
    TrimTwice(cell);
  }

  /** Drops the trailing run of absent scores; interior absent scores stay where they are. */
  function DropTrailingAbsent(ps: seq<Option<real>>): (r: seq<Option<real>>)
    ensures |r| <= |ps| && r == ps[..|r|]
    ensures r == [] || r[|r| - 1].Some?
    ensures forall k :: |r| <= k < |ps| ==> ps[k].None?
    decreases |ps|
  {
    if ps != [] && ps[|ps| - 1].None? then DropTrailingAbsent(ps[..|ps| - 1]) else ps
  }

  /** Absent scores appended at the end make no difference. */
  lemma {:induction false} DropTrailingAbsentPadding(ps: seq<Option<real>>, k: nat)
    ensures DropTrailingAbsent(ps + seq(k, _ => None)) == DropTrailingAbsent(ps)
    decreases k
  {
    var longer := ps + seq(k, _ => None);
    if k == 0 {
      assert longer == ps;
    } else {
      assert longer[|longer| - 1] == None;
      assert longer[..|longer| - 1] == ps + seq(k - 1, _ => None);
      DropTrailingAbsentPadding(ps, k - 1);
    }
  }

  // ---------- Summary rows ----------

  /**
   * One recipient's line in a criterion's summary statistics: the scores it
   * received, by position, with interior blanks kept as absent.
   */
  datatype SummaryRow = SummaryRow(
    team: string,
    recipient: string,
    recipientEmail: Option<string>,
    totalPoints: real,
    averagePoints: AverageCell,
    points: seq<Option<real>>)

  /** `rr.slice(5)`: the per-giver score cells. */
  function ScoreCells(row: Row): seq<string> {
    if |row| > 5 then row[5..] else []
  }

  /** Reads the scores of a row, absent for blank or "no response", then drops the trailing absent run. */
  function ReadScores(row: Row): (ps: seq<Option<real>>)
    ensures |ps| <= |ScoreCells(row)|
    ensures forall k :: 0 <= k < |ps| ==> ps[k] == ToInt(row[5 + k])
    ensures forall k :: 5 + |ps| <= k < |row| ==> ToInt(row[k]).None?
    ensures ps == [] || ps[|ps| - 1].Some?
  {
    var cells := ScoreCells(row);
    var all := seq(|cells|, k requires 0 <= k < |cells| => ToInt(cells[k]));
    var ps := DropTrailingAbsent(all);
    forall k | 0 <= k < |cells|
      ensures all[k] == ToInt(row[5 + k])
    {
      assert cells[k] == row[5 + k];
    }
    forall k | 5 + |ps| <= k < |row|
      ensures ToInt(row[k]).None?
    {
      assert all[k - 5].None?;
    }
    ps
  }

  function ReadSummaryRow(row: Row): (s: SummaryRow)
    ensures IsTrimmed(s.team) && IsTrimmed(s.recipient)
    ensures s.recipientEmail.None? <==> AllSpace(At(row, 2))
    ensures s.team == Trim(At(row, 0)) && s.recipient == Trim(At(row, 1))
    ensures s.recipientEmail.Some? ==> s.recipientEmail.value == Trim(At(row, 2))
    ensures s.totalPoints == ToInt(At(row, 3)).GetOr(0.0)
    ensures AllSpace(At(row, 3)) ==> s.totalPoints == 0.0
    ensures s.averagePoints == ReadAverage(At(row, 4))
    ensures s.points == ReadScores(row)
  {
    var email := Trim(At(row, 2));
    SummaryRow(
      Trim(At(row, 0)),
      Trim(At(row, 1)),
      if email == "" then None else Some(email),
      ToInt(At(row, 3)).GetOr(0.0),
      ReadAverage(At(row, 4)),
      ReadScores(row))
  }

  /** A summary line as the export writes it: team, recipient, e-mail, total, average, then one score per cell. */
  function PrintedRow(team: string, recipient: string, email: string, total: nat, average: nat, scores: seq<nat>): (row: Row)
    ensures |row| == 5 + |scores|
    ensures row[0] == team && row[1] == recipient && row[2] == email
    ensures row[3] == NatToString(total) && row[4] == NatToString(average)
    ensures forall k :: 0 <= k < |scores| ==> row[5 + k] == NatToString(scores[k])
  {
    [team, recipient, email, NatToString(total), NatToString(average)]
      + seq(|scores|, k requires 0 <= k < |scores| => NatToString(scores[k]))
  }

  /** The scores `ns` as they are read: every one present. */
  function PresentScores(ns: seq<nat>): (ps: seq<Option<real>>)
    ensures |ps| == |ns|
    ensures forall k :: 0 <= k < |ns| ==> ps[k] == Some(ns[k] as real)
  {
    seq(|ns|, k requires 0 <= k < |ns| => Some(ns[k] as real))
  }

  /**
   * A summary line written out with trimmed names, an e-mail address and
   * whole-number total, average and scores reads back as exactly those values.
   */
  lemma SummaryRowReadsPrinted(team: string, recipient: string, email: string, total: nat, average: nat, scores: seq<nat>)
    requires IsTrimmed(team) && IsTrimmed(recipient) && IsTrimmed(email) && email != ""
    ensures ReadSummaryRow(PrintedRow(team, recipient, email, total, average, scores))
      == SummaryRow(team, recipient, Some(email), total as real, Average(average as real), PresentScores(scores))
  {
    var row := PrintedRow(team, recipient, email, total, average, scores);
    PrintedNames(row, team, recipient, email);
    ToIntPrinted(total);
    AveragePrinted(average);
    ScoresReadBack(row, scores);
  }

  /** The trimmed name cells of a printed row read back unchanged; a non-empty e-mail is not blank. */
  lemma PrintedNames(row: Row, team: string, recipient: string, email: string)
    requires |row| >= 3 && row[0] == team && row[1] == recipient && row[2] == email
    requires IsTrimmed(team) && IsTrimmed(recipient) && IsTrimmed(email) && email != ""
    ensures Trim(At(row, 0)) == team && Trim(At(row, 1)) == recipient
    ensures Trim(At(row, 2)) == email && !AllSpace(At(row, 2))
  {
    TrimmedFixed(team);
    TrimmedFixed(recipient);
    TrimmedFixed(email);
  }

  /** A whole number printed alone in a cell reads back as that number. */
  lemma ToIntPrinted(n: nat)
    ensures ToInt(NatToString(n)) == Some(n as real)
  {
    NatToStringDigits(n);
    DigitsTrimmed(NatToString(n));
    ParsePrinted(n);
    ParseDecimalAccepts(NatToString(n));
  }

  /** A whole number printed in the average column reads back as that average. */
  lemma AveragePrinted(n: nat)
    ensures ReadAverage(NatToString(n)) == Average(n as real)
  {
    NatToStringDigits(n);
    DigitsTrimmed(NatToString(n));
    ParsePrinted(n);
  }

  /** Score cells that all hold printed whole numbers are read back in full and in order. */
  lemma ScoresReadBack(row: Row, ns: seq<nat>)
    requires |row| == 5 + |ns|
    requires forall k :: 0 <= k < |ns| ==> row[5 + k] == NatToString(ns[k])
    ensures ReadScores(row) == PresentScores(ns)
  {
    var cells := ScoreCells(row);
    var all := seq(|cells|, k requires 0 <= k < |cells| => ToInt(cells[k]));
    forall k | 0 <= k < |ns|
      ensures all[k] == Some(ns[k] as real)
    {
      assert cells[k] == row[5 + k];
      ToIntPrinted(ns[k]);
    }
    assert all == PresentScores(ns);
    assert ReadScores(row) == DropTrailingAbsent(all);
  }

  /** The head of a row is `norm` of its raw first cell, as the data-row loop computes it. */
  lemma HeadIsRowNorm(g: Grid, r: nat)
    requires r < |g|
    ensures Heads(g)[r] == Norm(At(g[r], 0))
  {
    HeadAt(g, r);
    NormIgnoresPadding(At(g[r], 0));
  }

  /**
   * A row that ends a block of data rows: blank, a repeated "team,giver"
   * header, or the next question (judged on the row's head).
   */
  predicate EndsBlock(g: Grid, hs: seq<string>, r: nat)
    requires |hs| == |g|
  {
    IsBlankRow(g, r) || StartsWith(hs[r], "team,giver") || StartsWith(hs[r], "question ")
  }

  /** The first row at or after `r` that ends the block of data rows. */
  function BlockEnd(g: Grid, hs: seq<string>, r: nat): (e: nat)
    requires |hs| == |g| && r <= |g|
    ensures r <= e <= |g|
    ensures EndsBlock(g, hs, e)
    ensures forall j :: r <= j < e ==> !EndsBlock(g, hs, j)
    decreases |g| - r
  {
    if EndsBlock(g, hs, r) then r else BlockEnd(g, hs, r + 1)
  }

  /** A summary row is kept when it names a team or a recipient. */
  predicate Named(s: SummaryRow) {
    s.team != "" || s.recipient != ""
  }

  /** Keeps the summary rows that name a team or a recipient, in order. */
  function KeepNamed(ss: seq<SummaryRow>): (kept: seq<SummaryRow>)
    ensures |kept| <= |ss|
    ensures forall k :: 0 <= k < |kept| ==> Named(kept[k]) && kept[k] in ss
    ensures forall s :: s in ss && Named(s) ==> s in kept
  {
    if ss == [] then []
    else
      var rest := KeepNamed(ss[1..]);
      if Named(ss[0]) then [ss[0]] + rest else rest
  }

  /** Reads each row as a summary row, keeping those that name a team or a recipient. */
  function ReadDataRows(rows: seq<Row>): (ss: seq<SummaryRow>)
    ensures |ss| <= |rows|
    ensures forall k :: 0 <= k < |ss| ==> Named(ss[k]) && exists m :: 0 <= m < |rows| && ss[k] == ReadSummaryRow(rows[m])
    ensures forall m :: 0 <= m < |rows| && Named(ReadSummaryRow(rows[m])) ==> ReadSummaryRow(rows[m]) in ss
  {
    var all := ReadEach(rows, ReadSummaryRow);
    var kept := KeepNamed(all);
    KeptRowsAreRead(rows, all, kept);
    kept
  }

  /** What the filter keeps out of the read rows, stated in terms of the raw rows. */
  lemma KeptRowsAreRead(rows: seq<Row>, all: seq<SummaryRow>, kept: seq<SummaryRow>)
    requires |all| == |rows| && forall m :: 0 <= m < |rows| ==> all[m] == ReadSummaryRow(rows[m])
    requires forall k :: 0 <= k < |kept| ==> Named(kept[k]) && kept[k] in all
    requires forall s :: s in all && Named(s) ==> s in kept
    ensures forall k :: 0 <= k < |kept| ==> Named(kept[k]) && exists m :: 0 <= m < |rows| && kept[k] == ReadSummaryRow(rows[m])
    ensures forall m :: 0 <= m < |rows| && Named(ReadSummaryRow(rows[m])) ==> ReadSummaryRow(rows[m]) in kept
  {
    forall k | 0 <= k < |kept|
      ensures Named(kept[k]) && exists m :: 0 <= m < |rows| && kept[k] == ReadSummaryRow(rows[m])
    {
      var m :| 0 <= m < |all| && all[m] == kept[k];
      assert kept[k] == ReadSummaryRow(rows[m]);
    }
    forall m | 0 <= m < |rows| && Named(ReadSummaryRow(rows[m]))
      ensures ReadSummaryRow(rows[m]) in kept
    {
      assert all[m] in all;
    }
  }

  /** A header row: its head and its normalised second cell start with the expected words. */
  predicate HeaderStarts(g: Grid, hs: seq<string>, h: nat, first: string, second: string)
    requires |hs| == |g| && h < |g|
  {
    StartsWith(hs[h], first) && StartsWith(Norm(At(g[h], 1)), second)
  }

  // ---------- Criteria ----------

  datatype Criterion = Criterion(questionNo: real, questionLabel: string, summaryStats: seq<SummaryRow>)

  /**
   * The question number in a "Question N: ..." cell: the first "question"
   * (any case) and the first colon removed, the rest trimmed and cut at the
   * first comma, read as a number, 0 when that fails or is 0.
   */
  function QuestionNumber(qLine: string): (n: real)
    ensures !IsDecimal(Trim(QuestionNumberText(qLine))) ==> n == 0.0
    ensures IsDecimal(Trim(QuestionNumberText(qLine))) ==> Some(n) == ParseDecimal(Trim(QuestionNumberText(qLine)))
  {
    NumberOrZero(QuestionNumberText(qLine));
    OrDefault(ToNumber(QuestionNumberText(qLine)), 0.0)
  }

  /** The text read as the question number: after removing "question" and ":", trimmed, up to the first comma. */
  function QuestionNumberText(qLine: string): string {
    var rest := Trim(RemoveFirstIgnoringCase(RemoveFirstIgnoringCase(qLine, "question"), ":"));
    SplitOn(rest, {','})[0]
  }

  /** "Question N" reads back as N, whatever the case of the word. */
  lemma QuestionNumberReadsPrinted(word: string, n: nat)
    requires |word| == 8 && Lower(word) == "question"
    ensures QuestionNumber(word + " " + NatToString(n)) == n as real
  {
    var d := NatToString(n);
    NatToStringDigits(n);
    Assoc(word, " ", d);
    RemoveFirstAtStart(word, "question", " " + d);
    forall i | 0 <= i < |" " + d|
      ensures LowerChar((" " + d)[i]) != ':'
    {
      if i > 0 {
        assert (" " + d)[i] == d[i - 1] && IsDigit(d[i - 1]);
      }
    }
    RemoveFirstAbsent(" " + d, ':');
    DigitsReadBack(d, n);
  }

  lemma SpacedDigitsTrim(d: string)
    requires d != [] && AllDigits(d)
    ensures Trim(" " + d) == d
  {
    assert IsDigit(d[0]) && IsDigit(d[|d| - 1]);
    assert AllSpace(" ");
    TrimAfterSpaces(" ", d);
  }

  lemma DigitsHaveNoComma(d: string)
    requires AllDigits(d)
    ensures SplitOn(d, {','}) == [d]
  {
    assert NoneOf(d, {','}) by {
      forall i | 0 <= i < |d|
        ensures d[i] !in {','}
      {
        assert IsDigit(d[i]);
      }
    }
    SplitWhole(d, {','});
  }

  /** Printed digits after one space: trimmed, cut at the first comma and read, they give the number back. */
  lemma DigitsReadBack(d: string, n: nat)
    requires d == NatToString(n) && d != [] && AllDigits(d)
    ensures OrDefault(ToNumber(SplitOn(Trim(" " + d), {','})[0]), 0.0) == n as real
  {
    SpacedDigitsTrim(d);
    DigitsHaveNoComma(d);
    ParsePrinted(n);
    assert SplitOn(Trim(" " + d), {','})[0] == d;
  }

  /**
   * Where the summary statistics of the block of question `q` (ending before
   * row `next`) lie: after a "summary statistics" marker inside the block,
   * skip to the first labelled row; when it is a team/recipient header, the
   * data rows run from the row under it to the end of the block.
   */
  function SummarySpan(g: Grid, hs: seq<string>, q: nat, next: nat): (span: Option<(nat, nat)>)
    requires |hs| == |g| && q < next <= |g|
    ensures span.Some? ==> q < span.value.0 <= span.value.1 <= |g|
  {
    var ss := Seek(hs, q + 1, next, SummaryLabel);
    if ss == next then None else SpanAfterTitle(g, hs, ss)
  }

  /** Row `h` is the "Team, Recipient" header of a summary table. */
  predicate RecipientHeader(g: Grid, hs: seq<string>, h: nat)
    requires |hs| == |g|
  {
    h < |g| && HeaderStarts(g, hs, h, "team", "recipient")
  }

  /** The data rows under row `h` up to the end of their block, when row `h` is the team/recipient header. */
  function SpanAt(g: Grid, hs: seq<string>, h: nat): (span: Option<(nat, nat)>)
    requires |hs| == |g| && h <= |g|
    ensures span.Some? ==> h < span.value.0 <= span.value.1 <= |g|
  {
    if RecipientHeader(g, hs, h) then Some(BlockFrom(g, hs, h + 1)) else None
  }

  /** The rows from `r` to the end of their block. */
  function BlockFrom(g: Grid, hs: seq<string>, r: nat): (span: (nat, nat))
    requires |hs| == |g| && r <= |g|
    ensures span.0 == r <= span.1 <= |g|
  {
    (r, BlockEnd(g, hs, r))
  }

  /** The data rows under the first labelled row after the title row `ss`, when that row is the team/recipient header. */
  function SpanAfterTitle(g: Grid, hs: seq<string>, ss: nat): (span: Option<(nat, nat)>)
    requires |hs| == |g| && ss < |g|
    ensures span.Some? ==> ss + 1 < span.value.0 <= span.value.1 <= |g|
    ensures span.Some? <==> RecipientHeader(g, hs, SkipUnlabelled(g, ss + 1))
    ensures span.Some? ==> span.value.0 == SkipUnlabelled(g, ss + 1) + 1
  {
    SpanAt(g, hs, SkipUnlabelled(g, ss + 1))
  }

  /** The summary statistics of a question block: the rows of its summary span, read. */
  function SummaryStats(g: Grid, hs: seq<string>, q: nat, next: nat): (ss: seq<SummaryRow>)
    requires |hs| == |g| && q < next <= |g|
    ensures SummarySpan(g, hs, q, next).None? ==> ss == []
    ensures forall k :: 0 <= k < |ss| ==> Named(ss[k])
    ensures var span := SummarySpan(g, hs, q, next);
      span.Some? ==> |ss| <= span.value.1 - span.value.0
    ensures var span := SummarySpan(g, hs, q, next);
      span.Some? ==> ss == ReadDataRows(g[span.value.0..span.value.1])
  {
    var span := SummarySpan(g, hs, q, next);
    if span.None? then [] else ReadDataRows(g[span.value.0..span.value.1])
  }

  /** The criterion of the question anchored at row `q`, whose block ends before row `next`. */
  function ReadCriterion(g: Grid, hs: seq<string>, q: nat, next: nat): (c: Criterion)
    requires |hs| == |g| && q < next <= |g|
    ensures c.questionNo == QuestionNumber(Cell(g, q, 0))
    ensures c.questionLabel == Cell(g, q, 1) && IsTrimmed(c.questionLabel)
    ensures c.summaryStats == SummaryStats(g, hs, q, next)
    ensures forall k :: 0 <= k < |c.summaryStats| ==> Named(c.summaryStats[k])
  {
    Criterion(QuestionNumber(Cell(g, q, 0)), Cell(g, q, 1), SummaryStats(g, hs, q, next))
  }

  /**
   * A question row written as "Question N" (the word in any case) followed by
   * a trimmed label gives a criterion numbered N with that label.
   */
  lemma CriterionReadsPrinted(g: Grid, hs: seq<string>, q: nat, next: nat, word: string, n: nat, caption: string)
    requires |hs| == |g| && q < next <= |g|
    requires |word| == 8 && Lower(word) == "question" && IsTrimmed(caption)
    requires |g[q]| >= 2 && g[q][0] == word + " " + NatToString(n) && g[q][1] == caption
    ensures ReadCriterion(g, hs, q, next).questionNo == n as real
    ensures ReadCriterion(g, hs, q, next).questionLabel == caption
  {
    QuestionCells(g, q, word + " " + NatToString(n), caption);
    QuestionLineTrimmed(word, n);
    QuestionNumberReadsPrinted(word, n);
  }

  lemma QuestionCells(g: Grid, q: nat, line: string, caption: string)
    requires q < |g| && |g[q]| >= 2 && g[q][0] == line && g[q][1] == caption && IsTrimmed(caption)
    ensures Cell(g, q, 0) == Trim(line) && Cell(g, q, 1) == caption
  {
    TrimmedFixed(caption);
  }

  /** "Question N" has no surrounding whitespace. */
  lemma QuestionLineTrimmed(word: string, n: nat)
    requires |word| == 8 && Lower(word) == "question"
    ensures Trim(word + " " + NatToString(n)) == word + " " + NatToString(n)
  {
    var d := NatToString(n);
    var line := word + " " + d;
    NatToStringDigits(n);
    assert LowerChar(word[0]) == Lower(word)[0] == 'q';
    assert line[0] == word[0];
    assert line[|line| - 1] == d[|d| - 1] && IsDigit(d[|d| - 1]);
    TrimmedFixed(line);
  }

  /** Question blocks as (anchor row, row after the block) pairs inside a grid of `n` rows. */
  predicate WellFormedBlocks(bs: seq<(nat, nat)>, n: nat) {
    forall k :: 0 <= k < |bs| ==> bs[k].0 < bs[k].1 <= n
  }

  /** The question loop from row `i`: each block runs from its anchor to the next question anchor. */
  function Blocks(hs: seq<string>, i: nat): (bs: seq<(nat, nat)>)
    requires i <= |hs|
    ensures WellFormedBlocks(bs, |hs|)
    ensures forall k :: 0 <= k < |bs| ==> i <= bs[k].0
    decreases |hs| - i
  {
    if i == |hs| || !StartsWith(hs[i], "question ") then []
    else
      var next := Seek(hs, i + 1, |hs|, QuestionLabel);
      [(i, next)] + Blocks(hs, next)
  }

  /** Reads the criterion of every block. */
  function ReadBlocks(g: Grid, hs: seq<string>, bs: seq<(nat, nat)>): (cs: seq<Criterion>)
    requires |hs| == |g| && WellFormedBlocks(bs, |g|)
    ensures |cs| == |bs|
    ensures forall k :: 0 <= k < |bs| ==> cs[k] == ReadCriterion(g, hs, bs[k].0, bs[k].1)
  {
    seq(|bs|, k requires 0 <= k < |bs| => ReadCriterion(g, hs, bs[k].0, bs[k].1))
  }

  function Criteria(g: Grid, hs: seq<string>, i: nat): seq<Criterion>
    requires |hs| == |g| && i <= |g|
  {
    ReadBlocks(g, hs, Blocks(hs, i))
  }

  // ---------- Non-submitters ----------

  datatype NonSubmission = NonSubmission(team: string, name: string, email: Option<string>)

  function ReadNonSubmission(row: Row): (n: NonSubmission)
    ensures IsTrimmed(n.team) && IsTrimmed(n.name)
    ensures n.team == Trim(At(row, 0)) && n.name == Trim(At(row, 1))
    ensures n.email.None? <==> AllSpace(At(row, 2))
    ensures n.email.Some? ==> n.email.value == Trim(At(row, 2))
  {
    var email := Trim(At(row, 2));
    NonSubmission(Trim(At(row, 0)), Trim(At(row, 1)), if email == "" then None else Some(email))
  }

  /** A participant line written out with trimmed team, name and e-mail reads back as those values; an empty e-mail is absent. */
  lemma NonSubmissionReadsPrinted(team: string, name: string, email: string)
    requires IsTrimmed(team) && IsTrimmed(name) && IsTrimmed(email)
    ensures ReadNonSubmission([team, name, email]) ==
      NonSubmission(team, name, if email == "" then None else Some(email))
  {
    var row := [team, name, email];
    assert At(row, 0) == team && At(row, 1) == name && At(row, 2) == email;
    TrimmedFixed(team);
    TrimmedFixed(name);
    TrimmedFixed(email);
  }

  predicate IsEmptyRecord(n: NonSubmission) {
    n.team == "" && n.name == "" && n.email.None?
  }

  /** The first blank row at or after `j`; the end of the grid counts as blank. */
  function RunEnd(g: Grid, j: nat): (e: nat)
    requires j <= |g|
    ensures j <= e <= |g|
    ensures forall r :: j <= r < e ==> !IsBlankRow(g, r)
    ensures IsBlankRow(g, e)
    decreases |g| - j
  {
    if IsBlankRow(g, j) then j else RunEnd(g, j + 1)
  }

  /** The rows from `j` up to the next blank row, each read as a record. */
  function RecordsUntilBlank(g: Grid, j: nat): (ns: seq<NonSubmission>)
    requires j <= |g|
    ensures |ns| <= |g| - j
    ensures forall r :: j <= r < j + |ns| ==> !IsBlankRow(g, r)
    ensures forall k :: 0 <= k < |ns| ==> ns[k] == ReadNonSubmission(g[j + k])
    ensures IsBlankRow(g, j + |ns|) && j + |ns| == RunEnd(g, j)
  {
    var e := RunEnd(g, j);
    var ns := ReadEach(g[j..e], ReadNonSubmission);
    assert j + |ns| == e;
    ns
  }

  /** Reads each row with `f`, in order. */
  function ReadEach<T>(rows: seq<Row>, f: Row -> T): (ts: seq<T>)
    ensures |ts| == |rows|
    ensures forall k :: 0 <= k < |rows| ==> ts[k] == f(rows[k])
  {
    seq(|rows|, k requires 0 <= k < |rows| => f(rows[k]))
  }

  /** Keeps the records with a team, a name or an email, in order. */
  function KeepRecords(ns: seq<NonSubmission>): (kept: seq<NonSubmission>)
    ensures |kept| <= |ns|
    ensures forall k :: 0 <= k < |kept| ==> !IsEmptyRecord(kept[k]) && kept[k] in ns
    ensures forall n :: n in ns && !IsEmptyRecord(n) ==> n in kept
  {
    if ns == [] then []
    else
      var rest := KeepRecords(ns[1..]);
      if IsEmptyRecord(ns[0]) then rest else [ns[0]] + rest
  }

  /** The rows from `j` up to the next blank row, keeping those with a team, a name or an email. */
  function NonSubmissionRows(g: Grid, j: nat): (ns: seq<NonSubmission>)
    requires j <= |g|
    ensures |ns| <= |g| - j
    ensures forall k :: 0 <= k < |ns| ==> !IsEmptyRecord(ns[k])
    ensures forall r :: j <= r < RunEnd(g, j) && !IsEmptyRecord(ReadNonSubmission(g[r])) ==> ReadNonSubmission(g[r]) in ns
  {
    var all := RecordsUntilBlank(g, j);
    var ns := KeepRecords(all);
    forall r | j <= r < RunEnd(g, j) && !IsEmptyRecord(ReadNonSubmission(g[r]))
      ensures ReadNonSubmission(g[r]) in ns
    {
      assert all[r - j] in all;
    }
    ns
  }

  /** The non-submitters section, when its title and a team/name header are present. */
  function NonSubmitters(g: Grid, hs: seq<string>): (ns: seq<NonSubmission>)
    requires |hs| == |g|
    ensures (forall r :: 0 <= r < |g| ==> !IsAnchor(hs, r, NonSubmittersLabel)) ==> ns == []
    ensures forall k :: 0 <= k < |ns| ==> !IsEmptyRecord(ns[k])
  {
    var t := Seek(hs, 0, |g|, NonSubmittersLabel);
    if t == |g| then [] else SectionUnder(g, hs, SkipBlank(g, t + 1))
  }

  /** The records under the team/name header at row `j`, or none when row `j` is not that header. */
  function SectionUnder(g: Grid, hs: seq<string>, j: nat): (ns: seq<NonSubmission>)
    requires |hs| == |g| && j <= |g|
    ensures forall k :: 0 <= k < |ns| ==> !IsEmptyRecord(ns[k])
  {
    if NameHeader(g, hs, j) then NonSubmissionRows(g, j + 1) else []
  }

  /** Row `j` is the "Team, Name" header of the non-submitters section. */
  predicate NameHeader(g: Grid, hs: seq<string>, j: nat)
    requires |hs| == |g|
  {
    j < |g| && HeaderStarts(g, hs, j, "team", "name")
  }

  // ---------- The document ----------

  datatype ParsedDocument = ParsedDocument(
    course: Course,
    sessionName: string,
    criteria: seq<Criterion>,
    paNotSubmitted: seq<NonSubmission>)

  datatype ParseError = MissingCourse | MissingSessionName

  function ErrorMessage(e: ParseError): (m: string)
    ensures StartsWith(m, "CSV does not contain a \"")
    ensures e.MissingCourse? <==> EndsWith(m, "\"Course\" row")
    ensures e.MissingCourse? ==> m == "CSV does not contain a \"Course\" row"
    ensures e.MissingSessionName? ==> m == "CSV does not contain a \"Session Name\" row"
  {
    match e
    case MissingCourse => "CSV does not contain a \"Course\" row"
    case MissingSessionName => "CSV does not contain a \"Session Name\" row"
  }

  /** Each failure has its own message, so the message tells which anchor was missing. */
  lemma ErrorMessageNamesError(a: ParseError, b: ParseError)
    ensures ErrorMessage(a) == ErrorMessage(b) ==> a == b
  {
  }

  /** Row `r` is the first anchor of kind `a` at or after row `from`. */
  predicate FirstAnchor(hs: seq<string>, from: nat, r: nat, a: Label) {
    from <= r && IsAnchor(hs, r, a) && forall j :: from <= j < r ==> !IsAnchor(hs, j, a)
  }

  /** The document read once the course row `c` and the session row `s` are known. */
  function Document(g: Grid, hs: seq<string>, c: nat, s: nat): (d: ParsedDocument)
    requires |hs| == |g| && c < s < |g|
    ensures IsTrimmed(d.sessionName)
  {
    var q := Seek(hs, s + 1, |g|, QuestionLabel);
    ParsedDocument(
      CourseFromCells(Cell(g, c, 0), Cell(g, c, 1), Cell(g, c, 2), Cell(g, c, 3)),
      Cell(g, s, 1),
      Criteria(g, hs, q),
      NonSubmitters(g, hs))
  }

  /** The reader after the course row `c`: the session name is required. */
  function ParseAfterCourse(g: Grid, hs: seq<string>, c: nat): (r: Result<ParsedDocument, ParseError>)
    requires |hs| == |g| && c < |g|
    ensures r != Failure(MissingCourse)
    ensures r.Success? ==> IsTrimmed(r.value.sessionName)
  {
    var s := Seek(hs, c + 1, |g|, SessionLabel);
    if s == |g| then Failure(MissingSessionName) else Success(Document(g, hs, c, s))
  }

  /**
   * `parseTeammatesCsv` on a grid whose rows have heads `hs`: the course from
   * the first "Course" row, the session name from the first "Session Name" row
   * after it, the questions after that, and the non-submitters section wherever it is.
   */
  function ParseHeads(g: Grid, hs: seq<string>): (r: Result<ParsedDocument, ParseError>)
    requires |hs| == |g|
    ensures r == Failure(MissingCourse) <==> forall j :: 0 <= j < |hs| ==> !IsAnchor(hs, j, CourseLabel)
    ensures r.Success? ==> IsTrimmed(r.value.sessionName)
  {
    var c := Seek(hs, 0, |g|, CourseLabel);
    if c == |g| then Failure(MissingCourse) else ParseAfterCourse(g, hs, c)
  }

  /** `parseTeammatesCsv`: the reader run on the heads of the grid's rows. */
  function Parse(g: Grid): (r: Result<ParsedDocument, ParseError>)
    ensures r == Failure(MissingCourse) <==> forall j :: 0 <= j < |g| ==> !IsAnchor(Heads(g), j, CourseLabel)
    ensures r.Success? ==> IsTrimmed(r.value.sessionName)
  {
    ParseHeads(g, Heads(g))
  }

  // ---------- Properties of the reader ----------

  /** The first anchor at or after `from` is where the seek lands. */
  lemma FirstAnchorSeek(hs: seq<string>, from: nat, r: nat, stop: nat, a: Label)
    requires FirstAnchor(hs, from, r, a) && r < stop <= |hs|
    ensures Seek(hs, from, stop, a) == r
  {
  }

  /** The row after question anchor `q` that ends its block: the next question anchor, or the end of the grid. */
  function NextOr(rs: seq<nat>, k: nat, end: nat): nat
    requires k < |rs|
  {
    if k + 1 < |rs| then rs[k + 1] else end
  }

  /** Each anchor paired with the next anchor, the last one with `end`. */
  function AnchorBlocks(qs: seq<nat>, end: nat): (bs: seq<(nat, nat)>)
    ensures |bs| == |qs|
  {
    seq(|qs|, k requires 0 <= k < |qs| => (qs[k], NextOr(qs, k, end)))
  }

  /** Pairing an anchor list that starts with `i`, followed by `next`, starts with the block `(i, next)`. */
  lemma AnchorBlocksCons(i: nat, next: nat, rest: seq<nat>, end: nat)
    requires if rest == [] then next == end else rest[0] == next
    ensures AnchorBlocks([i] + rest, end) == [(i, next)] + AnchorBlocks(rest, end)
  {
    var qs := [i] + rest;
    var want := [(i, next)] + AnchorBlocks(rest, end);
    forall k | 0 < k < |qs|
      ensures AnchorBlocks(qs, end)[k] == want[k]
    {
      assert qs[k] == rest[k - 1];
      assert NextOr(qs, k, end) == NextOr(rest, k - 1, end);
    }
  }

  /**
   * The question loop visits exactly the question anchors, in order, and the
   * block of each ends at the next anchor (or the end of the grid).
   */
  lemma {:induction false} BlocksFollowAnchors(hs: seq<string>, i: nat)
    requires i <= |hs|
    requires i == |hs| || IsAnchor(hs, i, QuestionLabel)
    ensures Blocks(hs, i) == AnchorBlocks(AnchorRows(hs, i, QuestionLabel), |hs|)
    decreases |hs| - i
  {
    if i < |hs| {
      var next := Seek(hs, i + 1, |hs|, QuestionLabel);
      BlocksFollowAnchors(hs, next);
      AnchorRowsAtAnchor(hs, i);
      AnchorRowsStartAt(hs, next);
      AnchorBlocksCons(i, next, AnchorRows(hs, next, QuestionLabel), |hs|);
    }
  }

  /** The anchors from a question anchor `i`: `i` itself, then those from where the next seek lands. */
  lemma AnchorRowsAtAnchor(hs: seq<string>, i: nat)
    requires i < |hs| && IsAnchor(hs, i, QuestionLabel)
    ensures AnchorRows(hs, i, QuestionLabel)
         == [i] + AnchorRows(hs, Seek(hs, i + 1, |hs|, QuestionLabel), QuestionLabel)
  {
    AnchorRowsFromSeek(hs, i + 1, QuestionLabel);
  }

  /** The anchors from where a seek lands start with that row, or are none when it reached the end. */
  lemma AnchorRowsStartAt(hs: seq<string>, r: nat)
    requires r <= |hs|
    requires r == |hs| || IsAnchor(hs, r, QuestionLabel)
    ensures var rest := AnchorRows(hs, r, QuestionLabel);
      if rest == [] then r == |hs| else rest[0] == r
  {
  }

  /** When the course and session seeks land on rows `c` and `s`, the reader succeeds with what those rows hold. */
  lemma ParseAt(g: Grid, hs: seq<string>, c: nat, s: nat)
    requires |hs| == |g| && c < s < |g|
    requires Seek(hs, 0, |g|, CourseLabel) == c
    requires Seek(hs, c + 1, |g|, SessionLabel) == s
    ensures ParseHeads(g, hs) == Success(Document(g, hs, c, s))
  {
    assert ParseAfterCourse(g, hs, c) == Success(Document(g, hs, c, s));
  }

  /** The question loop starts at the first question anchor after the session row and visits every later one. */
  lemma CriteriaAfter(g: Grid, hs: seq<string>, s: nat)
    requires |hs| == |g| && s < |g|
    ensures WellFormedBlocks(AnchorBlocks(AnchorRows(hs, s + 1, QuestionLabel), |g|), |g|)
    ensures Criteria(g, hs, Seek(hs, s + 1, |g|, QuestionLabel))
         == ReadBlocks(g, hs, AnchorBlocks(AnchorRows(hs, s + 1, QuestionLabel), |g|))
  {
    var q := Seek(hs, s + 1, |g|, QuestionLabel);
    AnchorRowsFromSeek(hs, s + 1, QuestionLabel);
    BlocksFollowAnchors(hs, q);
  }

  /**
   * With a "Course" row and a "Session Name" row after it, the reader succeeds:
   * the course comes from the first "Course" row, the session name from the
   * first "Session Name" row after it, and there is one criterion per question
   * anchor after that row, each read from its anchor up to the next one.
   */
  lemma ParseFinds(g: Grid, hs: seq<string>, c: nat, s: nat)
    requires |hs| == |g|
    requires FirstAnchor(hs, 0, c, CourseLabel)
    requires FirstAnchor(hs, c + 1, s, SessionLabel)
    ensures ParseHeads(g, hs).Success?
    ensures ParseHeads(g, hs).value.course == CourseFromCells(Cell(g, c, 0), Cell(g, c, 1), Cell(g, c, 2), Cell(g, c, 3))
    ensures ParseHeads(g, hs).value.sessionName == Cell(g, s, 1)
    ensures WellFormedBlocks(AnchorBlocks(AnchorRows(hs, s + 1, QuestionLabel), |g|), |g|)
    ensures ParseHeads(g, hs).value.criteria
         == ReadBlocks(g, hs, AnchorBlocks(AnchorRows(hs, s + 1, QuestionLabel), |g|))
    ensures ParseHeads(g, hs).value.paNotSubmitted == NonSubmitters(g, hs)
  {
    FirstAnchorSeek(hs, 0, c, |hs|, CourseLabel);
    FirstAnchorSeek(hs, c + 1, s, |hs|, SessionLabel);
    ParseAt(g, hs, c, s);
    CriteriaAfter(g, hs, s);
    var d := Document(g, hs, c, s);
    assert d.course == CourseFromCells(Cell(g, c, 0), Cell(g, c, 1), Cell(g, c, 2), Cell(g, c, 3));
    assert d.sessionName == Cell(g, s, 1);
    assert d.criteria == Criteria(g, hs, Seek(hs, s + 1, |g|, QuestionLabel));
  }

  /** Keeping the named rows of two runs keeps those of each run, in order. */
  lemma {:induction false} KeepNamedAppend(a: seq<SummaryRow>, b: seq<SummaryRow>)
    ensures KeepNamed(a + b) == KeepNamed(a) + KeepNamed(b)
    decreases |a|
  {
    if a != [] {
      assert (a + b)[1..] == a[1..] + b;
      KeepNamedAppend(a[1..], b);
      KeepNamedFirst(a + b);
      KeepNamedFirst(a);
      var x := if Named(a[0]) then [a[0]] else [];
      assert x + (KeepNamed(a[1..]) + KeepNamed(b)) == (x + KeepNamed(a[1..])) + KeepNamed(b);
    } else {
      assert a + b == b;
    }
  }

  /** Keeping the named rows of a non-empty run keeps its first row when named, then those of the rest. */
  lemma KeepNamedFirst(ss: seq<SummaryRow>)
    requires ss != []
    ensures KeepNamed(ss) == (if Named(ss[0]) then [ss[0]] else []) + KeepNamed(ss[1..])
  {
    if !Named(ss[0]) {
      assert [] + KeepNamed(ss[1..]) == KeepNamed(ss[1..]);
    }
  }

  /** A single row is kept exactly when it is named. */
  lemma KeepNamedOne(s: SummaryRow)
    ensures KeepNamed([s]) == if Named(s) then [s] else []
  {
    assert [s][1..] == [];
  }

  /** Keeping the non-empty records of two runs keeps those of each run, in order. */
  lemma {:induction false} KeepRecordsAppend(a: seq<NonSubmission>, b: seq<NonSubmission>)
    ensures KeepRecords(a + b) == KeepRecords(a) + KeepRecords(b)
    decreases |a|
  {
    if a != [] {
      assert (a + b)[1..] == a[1..] + b;
      KeepRecordsAppend(a[1..], b);
    } else {
      assert a + b == b;
    }
  }

  /** A single record is kept exactly when it is not empty. */
  lemma KeepRecordsOne(n: NonSubmission)
    ensures KeepRecords([n]) == if IsEmptyRecord(n) then [] else [n]
  {
    assert [n][1..] == [];
  }

  lemma ReadEachAppend<T>(a: seq<Row>, b: seq<Row>, f: Row -> T)
    ensures ReadEach(a + b, f) == ReadEach(a, f) + ReadEach(b, f)
  {
  }

  /**
   * Reading two runs of data rows reads each run, in order; with the one-row
   * case this fixes the result: every named row once, in the order of the rows.
   */
  lemma ReadDataRowsAppend(a: seq<Row>, b: seq<Row>)
    ensures ReadDataRows(a + b) == ReadDataRows(a) + ReadDataRows(b)
  {
    ReadEachAppend(a, b, ReadSummaryRow);
    KeepNamedAppend(ReadEach(a, ReadSummaryRow), ReadEach(b, ReadSummaryRow));
  }

  /** A single data row yields its summary row when that row is named, and nothing otherwise. */
  lemma ReadDataRowsOne(row: Row)
    ensures ReadDataRows([row]) == if Named(ReadSummaryRow(row)) then [ReadSummaryRow(row)] else []
  {
    ReadEachOne(row, ReadSummaryRow);
    KeepNamedOne(ReadSummaryRow(row));
  }

  /**
   * The non-submission run from row `j` row by row: nothing at a blank row,
   * otherwise the record of row `j` unless it is empty, then the run from the next row.
   */
  lemma NonSubmissionRowsStep(g: Grid, j: nat)
    requires j <= |g|
    ensures IsBlankRow(g, j) ==> NonSubmissionRows(g, j) == []
    ensures !IsBlankRow(g, j) ==>
      NonSubmissionRows(g, j)
        == KeepRecords([ReadNonSubmission(g[j])]) + NonSubmissionRows(g, j + 1)
  {
    if !IsBlankRow(g, j) {
      RecordsUntilBlankStep(g, j);
      KeepRecordsAppend([ReadNonSubmission(g[j])], RecordsUntilBlank(g, j + 1));
    } else {
      assert RecordsUntilBlank(g, j) == [];
    }
  }

  /** A non-blank row contributes its record ahead of those of the rows after it. */
  lemma RecordsUntilBlankStep(g: Grid, j: nat)
    requires j < |g| && !IsBlankRow(g, j)
    ensures RecordsUntilBlank(g, j) == [ReadNonSubmission(g[j])] + RecordsUntilBlank(g, j + 1)
  {
    var e := RunEnd(g, j);
    assert e == RunEnd(g, j + 1);
    assert g[j..e] == [g[j]] + g[j + 1..e];
    ReadEachAppend([g[j]], g[j + 1..e], ReadNonSubmission);
    ReadEachOne(g[j], ReadNonSubmission);
  }

  lemma ReadEachOne<T>(row: Row, f: Row -> T)
    ensures ReadEach([row], f) == [f(row)]
  {
  }

  /**
   * The non-submitters section: under the first "Participants who have not
   * responded to any question" title, the first non-blank row must be the team/name header, and
   * the records run from the row under it; otherwise the section is empty.
   */
  lemma NonSubmittersAt(g: Grid, hs: seq<string>, t: nat)
    requires |hs| == |g| && t < |g|
    requires FirstAnchor(hs, 0, t, NonSubmittersLabel)
    ensures NameHeader(g, hs, SkipBlank(g, t + 1)) ==> NonSubmitters(g, hs) == NonSubmissionRows(g, SkipBlank(g, t + 1) + 1)
    ensures !NameHeader(g, hs, SkipBlank(g, t + 1)) ==> NonSubmitters(g, hs) == []
  {
    FirstAnchorSeek(hs, 0, t, |hs|, NonSubmittersLabel);
    assert NonSubmitters(g, hs) == SectionUnder(g, hs, SkipBlank(g, t + 1));
  }

  /** A title whose next non-blank row is not the team/name header gives no non-submitters. */
  lemma NonSubmittersWithoutHeader(g: Grid, hs: seq<string>, t: nat)
    requires |hs| == |g| && t < |g|
    requires FirstAnchor(hs, 0, t, NonSubmittersLabel)
    requires !NameHeader(g, hs, SkipBlank(g, t + 1))
    ensures NonSubmitters(g, hs) == []
  {
    NonSubmittersAt(g, hs, t);
  }

  /** A "Course" row with no "Session Name" row after it is the session-name error. */
  lemma ParseMissingSession(g: Grid, hs: seq<string>, c: nat)
    requires |hs| == |g|
    requires FirstAnchor(hs, 0, c, CourseLabel)
    requires forall j :: c < j < |g| ==> !IsAnchor(hs, j, SessionLabel)
    ensures ParseHeads(g, hs) == Failure(MissingSessionName)
  {
    FirstAnchorSeek(hs, 0, c, |hs|, CourseLabel);
    assert Seek(hs, c + 1, |g|, SessionLabel) == |g|;
  }

  /** The data rows under a header end at the next question anchor at the latest. */
  lemma BlockEndBeforeQuestion(g: Grid, hs: seq<string>, r: nat, stop: nat)
    requires |hs| == |g| && r <= stop < |g| && IsAnchor(hs, stop, QuestionLabel)
    ensures BlockEnd(g, hs, r) <= stop
  {
    assert EndsBlock(g, hs, stop);
  }

  /** A question anchor is not a summary header. */
  lemma QuestionIsNoHeader(g: Grid, hs: seq<string>, h: nat)
    requires |hs| == |g| && IsAnchor(hs, h, QuestionLabel)
    ensures !HeaderStarts(g, hs, h, "team", "recipient")
  {
    assert hs[h][..9] == "question ";
    assert hs[h][..4][0] == 'q';
  }

  /** When the header search reaches the next question anchor, there is no summary table. */
  lemma NoHeaderAtQuestion(g: Grid, hs: seq<string>, ss: nat, next: nat)
    requires |hs| == |g| && ss < next < |g| && IsAnchor(hs, next, QuestionLabel)
    requires SkipUnlabelled(g, ss + 1) == next
    ensures SpanAfterTitle(g, hs, ss) == None
  {
    QuestionIsNoHeader(g, hs, next);
  }

  /** A header found before the next question anchor has its data rows end there at the latest. */
  lemma HeaderBeforeQuestion(g: Grid, hs: seq<string>, ss: nat, next: nat)
    requires |hs| == |g| && ss < next < |g| && IsAnchor(hs, next, QuestionLabel)
    requires SkipUnlabelled(g, ss + 1) < next
    ensures SpanAfterTitle(g, hs, ss).Some? ==> SpanAfterTitle(g, hs, ss).value.1 <= next
  {
    var h := SkipUnlabelled(g, ss + 1);
    if HeaderStarts(g, hs, h, "team", "recipient") {
      BlockEndBeforeQuestion(g, hs, h + 1, next);
    }
  }

  /** The rows read after a summary title stop before the next question anchor. */
  lemma SpanBeforeQuestion(g: Grid, hs: seq<string>, ss: nat, next: nat)
    requires |hs| == |g| && ss < next < |g|
    requires IsAnchor(hs, next, QuestionLabel) && !BlankCell(g, next, 0)
    ensures SpanAfterTitle(g, hs, ss).Some? ==> SpanAfterTitle(g, hs, ss).value.1 <= next
  {
    SkipUnlabelledStopsAtText(g, ss + 1, next);
    if SkipUnlabelled(g, ss + 1) == next {
      NoHeaderAtQuestion(g, hs, ss, next);
    } else {
      HeaderBeforeQuestion(g, hs, ss, next);
    }
  }

  /**
   * A criterion's summary rows are read from its own block: after the
   * "summary statistics" row that follows the question row, and before the next question anchor.
   */
  lemma SummarySpanInBlock(g: Grid, hs: seq<string>, q: nat, next: nat)
    requires |hs| == |g| && q < next <= |g|
    requires next == |g| || (IsAnchor(hs, next, QuestionLabel) && !BlankCell(g, next, 0))
    ensures SummarySpan(g, hs, q, next).Some? ==>
      q + 2 < SummarySpan(g, hs, q, next).value.0 <= SummarySpan(g, hs, q, next).value.1 <= next
    ensures var span := SummarySpan(g, hs, q, next);
      span.Some? ==> SummaryStats(g, hs, q, next) == ReadDataRows(g[span.value.0..span.value.1])
    ensures SummarySpan(g, hs, q, next).None? ==> SummaryStats(g, hs, q, next) == []
  {
    var ss := Seek(hs, q + 1, next, SummaryLabel);
    if ss < next && next < |g| {
      SpanBeforeQuestion(g, hs, ss, next);
    }
  }

  /** Without a "summary statistics" row inside the block, the criterion has no summary rows. */
  lemma NoSummaryTitle(g: Grid, hs: seq<string>, q: nat, next: nat)
    requires |hs| == |g| && q < next <= |g|
    requires forall j :: q < j < next ==> !IsAnchor(hs, j, SummaryLabel)
    ensures SummaryStats(g, hs, q, next) == []
  {
    assert Seek(hs, q + 1, next, SummaryLabel) == next;
  }

  /**
   * Once the first "summary statistics" row `ss` of the block is found, the
   * summary span is the block under the first labelled row after it when that
   * row is the team/recipient header, and there is none otherwise.
   */
  lemma SpanUnderTitle(g: Grid, hs: seq<string>, q: nat, next: nat, ss: nat)
    requires |hs| == |g| && q < next <= |g|
    requires FirstAnchor(hs, q + 1, ss, SummaryLabel) && ss < next
    ensures var h := SkipUnlabelled(g, ss + 1);
      RecipientHeader(g, hs, h) ==> SummarySpan(g, hs, q, next) == Some((h + 1, BlockEnd(g, hs, h + 1)))
    ensures !RecipientHeader(g, hs, SkipUnlabelled(g, ss + 1)) ==> SummarySpan(g, hs, q, next).None?
  {
    SummaryUnderTitle(g, hs, q, next, ss);
    if RecipientHeader(g, hs, SkipUnlabelled(g, ss + 1)) {
      TitleSpanUnderHeader(g, hs, ss);
    }
  }

  lemma TitleSpanUnderHeader(g: Grid, hs: seq<string>, ss: nat)
    requires |hs| == |g| && ss < |g| && RecipientHeader(g, hs, SkipUnlabelled(g, ss + 1))
    ensures var h := SkipUnlabelled(g, ss + 1);
      SpanAfterTitle(g, hs, ss) == Some((h + 1, BlockEnd(g, hs, h + 1)))
  {
    TitleSpanAt(g, hs, ss);
    SpanUnderHeader(g, hs, SkipUnlabelled(g, ss + 1));
  }

  lemma TitleSpanAt(g: Grid, hs: seq<string>, ss: nat)
    requires |hs| == |g| && ss < |g|
    ensures SpanAfterTitle(g, hs, ss) == SpanAt(g, hs, SkipUnlabelled(g, ss + 1))
  {
  }

  lemma SpanUnderHeader(g: Grid, hs: seq<string>, h: nat)
    requires |hs| == |g| && RecipientHeader(g, hs, h)
    ensures SpanAt(g, hs, h) == Some((h + 1, BlockEnd(g, hs, h + 1)))
  {
    assert SpanAt(g, hs, h) == Some(BlockFrom(g, hs, h + 1));
  }

  /**
   * With a "summary statistics" row `ss` inside the block, the summary table is
   * looked for after the first such row only.
   */
  lemma SummaryUnderTitle(g: Grid, hs: seq<string>, q: nat, next: nat, ss: nat)
    requires |hs| == |g| && q < next <= |g|
    requires FirstAnchor(hs, q + 1, ss, SummaryLabel) && ss < next
    ensures SummarySpan(g, hs, q, next) == SpanAfterTitle(g, hs, ss)
  {
    FirstAnchorSeek(hs, q + 1, ss, next, SummaryLabel);
    assert Seek(hs, q + 1, next, SummaryLabel) == ss;
  }
}
