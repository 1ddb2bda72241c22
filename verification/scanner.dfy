/**
 * The document scanner: reading cells of the decoded grid, recognising anchor
 * rows by their normalised first cell, and moving an explicit row cursor
 * forward to the next anchor or past rows of a given kind.
 *
 * The normalised first cell of every row (`norm(get(r, 0))`) is computed once
 * as the row's head; anchors are recognised on the heads.
 */
module Scanner {
  import opened Text

  type Row = seq<string>

  /** The decoded export: rows of text cells, of uneven lengths. */
  type Grid = seq<Row>

  /** `row[c] || ""`: a missing cell reads as empty. */
  function At(row: Row, c: nat): string {
    if c < |row| then row[c] else ""
  }

  /** `rows[r] || []`: a row past the end reads as an empty row. */
  function RowOr(g: Grid, r: nat): Row {
    if r < |g| then g[r] else []
  }

  /** The `get` helper: the trimmed text of cell `c` of row `r`, empty when absent. */
  function Cell(g: Grid, r: nat, c: nat): (s: string)
    ensures IsTrimmed(s)
  {
    Trim(At(RowOr(g, r), c))
  }

  /** Cell `c` of row `r` trims to the empty string. */
  predicate BlankCell(g: Grid, r: nat, c: nat) {
    AllSpace(At(RowOr(g, r), c))
  }

  lemma CellEmpty(g: Grid, r: nat, c: nat)
    ensures Cell(g, r, c) == "" <==> BlankCell(g, r, c)
  {
  }

  /** The `isBlankRow` helper: a row past the end, or one whose every cell trims to empty. */
  predicate IsBlankRow(g: Grid, r: nat) {
    r >= |g| || forall k :: 0 <= k < |g[r]| ==> AllSpace(g[r][k])
  }

  /** The normalised first cell of every row. */
  function Heads(g: Grid): (hs: seq<string>)
    ensures |hs| == |g|
    ensures forall r :: 0 <= r < |g| ==> hs[r] == Norm(Cell(g, r, 0))
  {
    seq(|g|, r requires 0 <= r < |g| => Norm(Cell(g, r, 0)))
  }

  /** The head of row `r` is `norm(get(r, 0))`. */
  lemma HeadAt(g: Grid, r: nat)
    requires r < |g|
    ensures Heads(g)[r] == Norm(Cell(g, r, 0))
  {
  }

  /** The section labels the scanner recognises in a row's first cell. */
  datatype Label = CourseLabel | SessionLabel | QuestionLabel | SummaryLabel | NonSubmittersLabel

  /** `s.replace(/:$/, "")`: drops one colon at the very end. */
  function DropColon(s: string): (r: string)
    ensures r == s || s == r + ":"
  {
    if |s| > 0 && s[|s| - 1] == ':' then
      assert s == s[..|s| - 1] + ":";
      s[..|s| - 1]
    else s
  }

  /** Whether normalised first-cell text `n` is the label `a`. */
  predicate Labels(n: string, a: Label) {
    match a
    case CourseLabel => DropColon(n) == "course"
    case SessionLabel => n == "session name"
    case QuestionLabel => StartsWith(n, "question ")
    case SummaryLabel => n == "summary statistics"
    case NonSubmittersLabel => n == "participants who have not responded to any question"
  }

  /** Row `r` is an anchor of kind `a`: its head is the label. */
  predicate IsAnchor(hs: seq<string>, r: nat, a: Label) {
    r < |hs| && Labels(hs[r], a)
  }

  /** An anchor row is a row of the grid that is not blank and whose first cell is not blank. */
  lemma AnchorHasText(g: Grid, hs: seq<string>, r: nat, a: Label)
    requires |hs| == |g| && IsAnchor(hs, r, a) && hs[r] == Norm(Cell(g, r, 0))
    ensures !BlankCell(g, r, 0) && !IsBlankRow(g, r)
  {
    BlankHeadIsEmpty(g, r);
    EmptyLabelsNothing(a);
    assert g[r] != [] && !AllSpace(g[r][0]);
  }

  /** A row whose first cell is blank has the empty head. */
  lemma BlankHeadIsEmpty(g: Grid, r: nat)
    ensures BlankCell(g, r, 0) ==> Norm(Cell(g, r, 0)) == ""
  {
    CellEmpty(g, r, 0);
    if BlankCell(g, r, 0) {
      NormBlank(Cell(g, r, 0));
    }
  }

  /** The empty head is no label. */
  lemma EmptyLabelsNothing(a: Label)
    ensures !Labels("", a)
  {
    assert DropColon("") == "";
  }

  /**
   * Moves the cursor from `from` to the first anchor of kind `a` before `stop`,
   * or to `stop` when there is none.
   */
  function Seek(hs: seq<string>, from: nat, stop: nat, a: Label): (k: nat)
    requires from <= stop <= |hs|
    ensures from <= k <= stop
    ensures k < stop ==> IsAnchor(hs, k, a)
    ensures forall j :: from <= j < k ==> !IsAnchor(hs, j, a)
    decreases stop - from
  {
    if from == stop then stop
    else if IsAnchor(hs, from, a) then from
    else Seek(hs, from + 1, stop, a)
  }

  /** The anchors of kind `a` at or after row `from`, in grid order. */
  function AnchorRows(hs: seq<string>, from: nat, a: Label): (rs: seq<nat>)
    requires from <= |hs|
    ensures forall k :: 0 <= k < |rs| ==> from <= rs[k] && IsAnchor(hs, rs[k], a)
    ensures forall k, l :: 0 <= k < l < |rs| ==> rs[k] < rs[l]
    ensures forall j :: from <= j && IsAnchor(hs, j, a) ==> j in rs
    decreases |hs| - from
  {
    if from == |hs| then []
    else
      var rest := AnchorRows(hs, from + 1, a);
      AnchorRowsStep(hs, from, a, rest);
      if IsAnchor(hs, from, a) then [from] + rest else rest
  }

  /** The facts about the anchors after row `from` extend to those from `from`. */
  lemma AnchorRowsStep(hs: seq<string>, from: nat, a: Label, rest: seq<nat>)
    requires from < |hs|
    requires forall k :: 0 <= k < |rest| ==> from + 1 <= rest[k] && IsAnchor(hs, rest[k], a)
    requires forall k, l :: 0 <= k < l < |rest| ==> rest[k] < rest[l]
    requires forall j :: from + 1 <= j && IsAnchor(hs, j, a) ==> j in rest
    ensures var rs := if IsAnchor(hs, from, a) then [from] + rest else rest;
      && (forall k :: 0 <= k < |rs| ==> from <= rs[k] && IsAnchor(hs, rs[k], a))
      && (forall k, l :: 0 <= k < l < |rs| ==> rs[k] < rs[l])
      && (forall j :: from <= j && IsAnchor(hs, j, a) ==> j in rs)
  {
    if IsAnchor(hs, from, a) {
      ConsAnchors(hs, from, a, rest);
      ConsIncreasing(from, rest);
      ConsComplete(hs, from, a, rest);
    }
  }

  lemma ConsAnchors(hs: seq<string>, from: nat, a: Label, rest: seq<nat>)
    requires IsAnchor(hs, from, a)
    requires forall k :: 0 <= k < |rest| ==> from + 1 <= rest[k] && IsAnchor(hs, rest[k], a)
    ensures forall k :: 0 <= k < |[from] + rest| ==> from <= ([from] + rest)[k] && IsAnchor(hs, ([from] + rest)[k], a)
  {
    var rs := [from] + rest;
    forall k | 0 < k < |rs|
      ensures from <= rs[k] && IsAnchor(hs, rs[k], a)
    {
      assert rs[k] == rest[k - 1];
    }
  }

  lemma ConsIncreasing(from: nat, rest: seq<nat>)
    requires forall k :: 0 <= k < |rest| ==> from + 1 <= rest[k]
    requires forall k, l :: 0 <= k < l < |rest| ==> rest[k] < rest[l]
    ensures forall k, l :: 0 <= k < l < |[from] + rest| ==> ([from] + rest)[k] < ([from] + rest)[l]
  {
    var rs := [from] + rest;
    forall k, l | 0 <= k < l < |rs|
      ensures rs[k] < rs[l]
    {
      assert rs[l] == rest[l - 1];
      if k > 0 {
        assert rs[k] == rest[k - 1];
      }
    }
  }

  lemma ConsComplete(hs: seq<string>, from: nat, a: Label, rest: seq<nat>)
    requires forall j :: from + 1 <= j && IsAnchor(hs, j, a) ==> j in rest
    ensures forall j :: from <= j && IsAnchor(hs, j, a) ==> j in [from] + rest
  {
    forall j | from <= j && IsAnchor(hs, j, a)
      ensures j in [from] + rest
    {
      if j > from {
        assert j in rest;
      }
    }
  }

  /** Seeking forward skips no anchor: the anchors from `from` are those from where the seek lands. */
  lemma {:induction false} AnchorRowsFromSeek(hs: seq<string>, from: nat, a: Label)
    requires from <= |hs|
    ensures AnchorRows(hs, from, a) == AnchorRows(hs, Seek(hs, from, |hs|, a), a)
    decreases |hs| - from
  {
    if from < |hs| && !IsAnchor(hs, from, a) {
      AnchorRowsFromSeek(hs, from + 1, a);
    }
  }

  /**
   * The summary-header search: moves past blank rows and rows whose first
   * cell is empty.
   */
  function SkipUnlabelled(g: Grid, from: nat): (k: nat)
    requires from <= |g|
    ensures from <= k <= |g|
    ensures forall j :: from <= j < k ==> IsBlankRow(g, j) || BlankCell(g, j, 0)
    ensures k < |g| ==> !IsBlankRow(g, k) && !BlankCell(g, k, 0)
    decreases |g| - from
  {
    if from < |g| && (IsBlankRow(g, from) || BlankCell(g, from, 0)) then SkipUnlabelled(g, from + 1)
    else from
  }

  /** The non-submitters header search: moves past blank rows. */
  function SkipBlank(g: Grid, from: nat): (k: nat)
    requires from <= |g|
    ensures from <= k <= |g|
    ensures forall j :: from <= j < k ==> IsBlankRow(g, j)
    ensures k < |g| ==> !IsBlankRow(g, k)
    decreases |g| - from
  {
    if from < |g| && IsBlankRow(g, from) then SkipBlank(g, from + 1) else from
  }

  /** The summary-header search never runs past an anchor row. */
  lemma SkipUnlabelledStopsAtText(g: Grid, from: nat, q: nat)
    requires from <= q < |g| && !BlankCell(g, q, 0)
    ensures SkipUnlabelled(g, from) <= q
  {
    assert !IsBlankRow(g, q) by {
      assert g[q] != [] && !AllSpace(g[q][0]);
    }
  }
}
