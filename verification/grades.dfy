/**
 * The grade calculator: per-student PA score, weighted, individual and final
 * marks, and the ordering of the breakdown, once the stored aggregates,
 * team sizes, group marks, non-submitters and grading configuration have been
 * read. Reading those from the database is outside the model; they arrive as
 * explicit arguments.
 */
module Grades {
  import opened Base
  import opened Text
  import opened Numbers
  import opened Collation

  /** A `grading_configs` row; `None` stands for SQL NULL or a value `Number` cannot read. */
  datatype StoredConfig = StoredConfig(paWeight: Option<real>, penaltyPercent: Option<real>, numCriteria: Option<real>)

  /** The configuration the calculator works with, after defaulting. */
  datatype GradeConfig = GradeConfig(paWeight: real, penaltyPercent: real, numCriteria: real)

  const DefaultPaWeight: real := 10.0

  /**
   * Configuration defaulting when the breakdown is computed: without a stored
   * row the defaults are PA weight 10, penalty 0 and no criteria; a stored PA
   * weight that is missing or zero also becomes 10.
   */
  function LoadConfig(row: Option<StoredConfig>): (cfg: GradeConfig)
    ensures cfg.paWeight != 0.0
    ensures row.None? ==> cfg == GradeConfig(DefaultPaWeight, 0.0, 0.0)
    ensures row.Some? ==> cfg.paWeight == (if Falsy(row.value.paWeight) then DefaultPaWeight else row.value.paWeight.value)
    ensures row.Some? ==> cfg.penaltyPercent == row.value.penaltyPercent.GetOr(0.0)
    ensures row.Some? ==> cfg.numCriteria == row.value.numCriteria.GetOr(0.0)
  {
    match row
    case None => GradeConfig(DefaultPaWeight, 0.0, 0.0)
    case Some(c) =>
      GradeConfig(OrDefault(c.paWeight, DefaultPaWeight), OrDefault(c.penaltyPercent, 0.0), OrDefault(c.numCriteria, 0.0))
  }

  /** The PA weight as a fraction: the percentage clamped to 0..100, over 100. */
  function PaFraction(cfg: GradeConfig): (w: real)
    ensures 0.0 <= w <= 1.0
    ensures cfg.paWeight <= 0.0 ==> w == 0.0
    ensures cfg.paWeight >= 100.0 ==> w == 1.0
    ensures 0.0 <= cfg.paWeight <= 100.0 ==> w * 100.0 == cfg.paWeight
  {
    Clamp(cfg.paWeight, 0.0, 100.0) / 100.0
  }

  /**
   * PA score: the student's average points per criterion relative to an equal
   * share (100 points over the team size), rounded to cents. Without criteria or
   * without team members it is exactly 1.00.
   */
  function PaScore(averagePoints: real, numCriteria: real, teamSize: nat): (pa: real)
    ensures IsCents(pa)
    ensures numCriteria <= 0.0 || teamSize == 0 ==> pa == 1.0
    ensures numCriteria > 0.0 && teamSize > 0 ==>
      var share := averagePoints * teamSize as real / (100.0 * numCriteria);
      share - 0.005 < pa <= share + 0.005
    ensures averagePoints >= 0.0 ==> pa >= 0.0
  {
    if numCriteria > 0.0 && teamSize > 0 then
      var raw := (averagePoints / numCriteria) / (100.0 / teamSize as real);
      assert raw == averagePoints * teamSize as real / (100.0 * numCriteria);
      Round2(raw)
    else
      assert Round0(100.0) == 100;
      Round2(1.0)
  }

  /**
   * The final mark of a student flagged as not having submitted: the individual
   * mark reduced by the clamped penalty percentage, rounded once.
   */
  function Penalised(individual: int, penaltyPercent: real): (f: int)
    ensures individual >= 0 ==> 0 <= f <= individual
    ensures penaltyPercent <= 0.0 ==> f == individual
    ensures penaltyPercent >= 100.0 ==> f == 0
    ensures var kept := individual as real * (1.0 - Clamp(penaltyPercent, 0.0, 100.0) / 100.0);
      kept - 0.5 < f as real <= kept + 0.5
  {
    var p := Clamp(penaltyPercent, 0.0, 100.0);
    var v := individual as real - individual as real * p / 100.0;
    KeptShare(individual as real, p);
    Round0(v)
  }

  /** Taking `p` percent off `x` keeps the share `1 - p/100`, which lies between nothing and all of a non-negative `x`. */
  lemma KeptShare(x: real, p: real)
    requires 0.0 <= p <= 100.0
    ensures x - x * p / 100.0 == x * (1.0 - p / 100.0)
    ensures x >= 0.0 ==> 0.0 <= x - x * p / 100.0 <= x
  {
    var f := p / 100.0;
    assert 0.0 <= f <= 1.0;
    assert x * p / 100.0 == x * f;
    if x >= 0.0 {
      assert x * f <= x * 1.0;
      assert 0.0 <= x * f;
    }
  }

  /** The key under which per-student data is looked up: team and student joined by `||`. */
  function Key(team: string, student: string): string {
    team + "||" + student
  }

  /** One aggregate row: the student's average points summed over criteria. */
  datatype AverageRow = AverageRow(team: string, student: string, averagePoints: real)

  /** Everything the calculator reads for one session. */
  datatype GradeInputs = GradeInputs(
    averages: seq<AverageRow>,
    teamSizes: map<string, nat>,
    groupMarks: map<string, real>,
    notSubmitted: set<string>,
    config: GradeConfig)

  /** One row of the breakdown; `groupMark` is `None` when the team has no group mark. */
  datatype BreakdownRow = BreakdownRow(
    team: string,
    student: string,
    averagePoints: real,
    paScore: real,
    groupMark: Option<int>,
    weightedMark: int,
    individualMark: int,
    paNotSubmitted: bool,
    finalMark: int)

  /**
   * The average looked up by key in the map built from the aggregate rows:
   * a later row with the same key replaces an earlier one; an absent key reads 0.
   */
  function AverageOf(rows: seq<AverageRow>, key: string): (avg: real)
    ensures (forall i :: 0 <= i < |rows| ==> Key(rows[i].team, rows[i].student) != key) ==> avg == 0.0
    decreases |rows|
  {
    if rows == [] then 0.0
    else
      var last := rows[|rows| - 1];
      if Key(last.team, last.student) == key then last.averagePoints
      else AverageOf(rows[..|rows| - 1], key)
  }

  /** Keys of distinct aggregate rows differ. */
  predicate DistinctKeys(rows: seq<AverageRow>) {
    forall i, j :: 0 <= i < j < |rows| ==> Key(rows[i].team, rows[i].student) != Key(rows[j].team, rows[j].student)
  }

  /** When no two rows share a key, looking up a row's key finds that row's average. */
  lemma {:induction false} AverageOfDistinct(rows: seq<AverageRow>, i: nat)
    requires DistinctKeys(rows) && i < |rows|
    ensures AverageOf(rows, Key(rows[i].team, rows[i].student)) == rows[i].averagePoints
    decreases |rows|
  {
    if i < |rows| - 1 {
      var init := rows[..|rows| - 1];
      assert init[i] == rows[i];
      assert DistinctKeys(init) by {
        forall a, b | 0 <= a < b < |init|
          ensures Key(init[a].team, init[a].student) != Key(init[b].team, init[b].student)
        {
          assert init[a] == rows[a] && init[b] == rows[b];
        }
      }
      AverageOfDistinct(init, i);
    }
  }

  /** `teamSize.get(team) || 0`: the team's size, 0 for a team with no summary rows. */
  function TeamSizeOf(inp: GradeInputs, team: string): nat {
    if team in inp.teamSizes then inp.teamSizes[team] else 0
  }

  /** The team's group mark, 0 when the team has none (`Number.isFinite(gmRaw) ? gmRaw : 0`). */
  function GroupMarkOf(inp: GradeInputs, team: string): real {
    if team in inp.groupMarks then inp.groupMarks[team] else 0.0
  }

  /**
   * Computes one student's breakdown row: the PA score from the looked-up
   * average, the weighted mark as the group mark times the PA score, the
   * individual mark blending the unrounded weighted mark with the group mark
   * by the PA fraction, and for a flagged student the penalised mark.
   */
  function ComputeRow(r: AverageRow, inp: GradeInputs): (b: BreakdownRow)
    ensures b.team == r.team && b.student == r.student
    ensures b.paNotSubmitted <==> Key(r.team, r.student) in inp.notSubmitted
    ensures IsCents(b.paScore) && IsCents(b.averagePoints)
    ensures inp.config.numCriteria <= 0.0 || r.team !in inp.teamSizes || inp.teamSizes[r.team] == 0 ==> b.paScore == 1.0
    ensures r.team !in inp.groupMarks ==>
      b.groupMark == None && b.weightedMark == 0 && b.individualMark == 0 && b.finalMark == 0
    ensures r.team in inp.groupMarks ==> b.groupMark == Some(Round0(inp.groupMarks[r.team]))
    ensures !b.paNotSubmitted ==> b.finalMark == b.individualMark
    ensures b.paNotSubmitted && b.individualMark >= 0 ==> 0 <= b.finalMark <= b.individualMark
    ensures inp.config.paWeight <= 0.0 ==> b.groupMark.Some? ==> b.individualMark == b.groupMark.value
    ensures inp.config.paWeight >= 100.0 ==> b.individualMark == b.weightedMark
    ensures b.averagePoints == RoundAway2(AverageOf(inp.averages, Key(r.team, r.student)))
    ensures b.paScore == PaScore(AverageOf(inp.averages, Key(r.team, r.student)), inp.config.numCriteria, TeamSizeOf(inp, r.team))
    ensures (b.weightedMark, b.individualMark) == Marks(GroupMarkOf(inp, r.team), b.paScore, PaFraction(inp.config))
    ensures b.paNotSubmitted ==> b.finalMark == Penalised(b.individualMark, inp.config.penaltyPercent)
  {
    var key := Key(r.team, r.student);
    var avg := AverageOf(inp.averages, key);
    var pa := PaScore(avg, inp.config.numCriteria, TeamSizeOf(inp, r.team));
    var gm := GroupMarkOf(inp, r.team);
    // `toFixed(2)` leaves the rounded PA score unchanged, so the marks may use the printed value.
    RoundAway2Cents(pa);
    var shown := RoundAway2(pa);
    var marks := Marks(gm, shown, PaFraction(inp.config));
    var isNS := key in inp.notSubmitted;
    BreakdownRow(
      r.team, r.student,
      RoundAway2(avg),
      shown,
      if r.team in inp.groupMarks then Some(Round0(gm)) else None,
      marks.0,
      marks.1,
      isNS,
      if isNS then Penalised(marks.1, inp.config.penaltyPercent) else marks.1)
  }

  /**
   * The weighted and individual marks for group mark `gm`, PA score `pa` and
   * PA fraction `w`: the individual mark blends the unrounded weighted mark.
   */
  function Marks(gm: real, pa: real, w: real): (m: (int, int))
    ensures m.0 == Round0(gm * pa)
    ensures m.1 == Round0(gm * pa * w + gm * (1.0 - w))
    ensures w == 0.0 ==> m.1 == Round0(gm)
    ensures w == 1.0 ==> m.1 == m.0
    ensures gm == 0.0 ==> m == (0, 0)
  {
    var weightedRaw := gm * pa;
    var blend := weightedRaw * w + gm * (1.0 - w);
    assert w == 0.0 ==> blend == gm;
    assert w == 1.0 ==> blend == weightedRaw;
    assert gm == 0.0 ==> weightedRaw == 0.0 && blend == 0.0;
    (Round0(weightedRaw), Round0(blend))
  }

  /** Breakdown order: by team, then by student. */
  predicate RowLe(x: BreakdownRow, y: BreakdownRow) {
    if x.team == y.team then StrLe(x.student, y.student) else StrLe(x.team, y.team)
  }

  lemma RowLeTotal(x: BreakdownRow, y: BreakdownRow)
    ensures RowLe(x, y) || RowLe(y, x)
  {
    StrLeTotal(x.team, y.team);
    StrLeTotal(x.student, y.student);
  }

  lemma RowLeTransitive(x: BreakdownRow, y: BreakdownRow, z: BreakdownRow)
    requires RowLe(x, y) && RowLe(y, z)
    ensures RowLe(x, z)
  {
    if x.team == y.team && y.team == z.team {
      StrLeTransitive(x.student, y.student, z.student);
    } else if x.team != y.team && y.team != z.team {
      StrLeTransitive(x.team, y.team, z.team);
      if x.team == z.team {
        StrLeAntisymmetric(x.team, y.team);
        assert false;
      }
    }
  }

  predicate Sorted(rows: seq<BreakdownRow>) {
    forall i, j :: 0 <= i < j < |rows| ==> RowLe(rows[i], rows[j])
  }

  /** A row that every row of a sorted sequence follows can be put in front of it. */
  lemma PrependSorted(x: BreakdownRow, rest: seq<BreakdownRow>)
    requires Sorted(rest)
    requires forall y | y in rest :: RowLe(x, y)
    ensures Sorted([x] + rest)
  {
    var s := [x] + rest;
    forall i, j | 0 <= i < j < |s|
      ensures RowLe(s[i], s[j])
    {
      assert s[j] == rest[j - 1];
      if i > 0 {
        assert s[i] == rest[i - 1];
      }
    }
  }

  /** The first row of a sorted sequence precedes every row. */
  lemma FirstPrecedesAll(rows: seq<BreakdownRow>)
    requires Sorted(rows) && rows != []
    ensures forall y | y in rows :: RowLe(rows[0], y)
  {
    forall y | y in rows
      ensures RowLe(rows[0], y)
    {
      var j :| 0 <= j < |rows| && rows[j] == y;
      if j == 0 {
        RowLeTotal(y, y);
      }
    }
  }

  /** A row placed before the first row of a sorted sequence precedes every row. */
  lemma BeforeFirstPrecedesAll(x: BreakdownRow, rows: seq<BreakdownRow>)
    requires Sorted(rows) && rows != [] && RowLe(x, rows[0])
    ensures forall y | y in rows :: RowLe(x, y)
  {
    FirstPrecedesAll(rows);
    forall y | y in rows
      ensures RowLe(x, y)
    {
      RowLeTransitive(x, rows[0], y);
    }
  }

  /** Inserts a row into a sorted breakdown, before the first row it does not follow. */
  function Insert(x: BreakdownRow, rows: seq<BreakdownRow>): (r: seq<BreakdownRow>)
    requires Sorted(rows)
    ensures Sorted(r)
    ensures multiset(r) == multiset(rows) + multiset{x}
    decreases |rows|
  {
    if rows == [] then [x]
    else if RowLe(x, rows[0]) then
      BeforeFirstPrecedesAll(x, rows);
      PrependSorted(x, rows);
      [x] + rows
    else
      var rest := Insert(x, rows[1..]);
      assert rows == [rows[0]] + rows[1..];
      RowLeTotal(x, rows[0]);
      FirstPrecedesAll(rows);
      assert forall y | y in rest :: RowLe(rows[0], y) by {
        forall y | y in rest
          ensures RowLe(rows[0], y)
        {
          assert y in multiset(rest);
          if y != x {
            assert y in multiset(rows[1..]);
            assert y in rows;
          }
        }
      }
      PrependSorted(rows[0], rest);
      [rows[0]] + rest
  }

  /** Sorts breakdown rows by team, then student. */
  function SortRows(rows: seq<BreakdownRow>): (r: seq<BreakdownRow>)
    ensures Sorted(r)
    ensures multiset(r) == multiset(rows)
    decreases |rows|
  {
    if rows == [] then []
    else
      assert rows == [rows[0]] + rows[1..];
      Insert(rows[0], SortRows(rows[1..]))
  }

  /** The rows before sorting: one per aggregate row, in input order. */
  function Unsorted(inp: GradeInputs): (rows: seq<BreakdownRow>)
    ensures |rows| == |inp.averages|
    ensures forall i :: 0 <= i < |rows| ==> rows[i] == ComputeRow(inp.averages[i], inp)
  {
    seq(|inp.averages|, i requires 0 <= i < |inp.averages| => ComputeRow(inp.averages[i], inp))
  }

  /**
   * The grade breakdown: exactly one row per aggregate row, sorted by team and
   * then student.
   */
  function Breakdown(inp: GradeInputs): (rows: seq<BreakdownRow>)
    ensures |rows| == |inp.averages|
    ensures Sorted(rows)
    ensures multiset(rows) == multiset(Unsorted(inp))
  {
    var r := SortRows(Unsorted(inp));
    assert |r| == |multiset(r)|;
    r
  }

  /** Every breakdown row belongs to some aggregate row, and every aggregate row has its breakdown row. */
  lemma BreakdownCoversAverages(inp: GradeInputs)
    ensures forall b :: b in Breakdown(inp) ==> exists i :: 0 <= i < |inp.averages| && b == ComputeRow(inp.averages[i], inp)
    ensures forall i :: 0 <= i < |inp.averages| ==> ComputeRow(inp.averages[i], inp) in Breakdown(inp)
  {
    var u := Unsorted(inp);
    var rows := Breakdown(inp);
    forall b | b in rows
      ensures exists i :: 0 <= i < |inp.averages| && b == ComputeRow(inp.averages[i], inp)
    {
      assert b in multiset(rows);
      assert b in multiset(u);
      var i :| 0 <= i < |u| && u[i] == b;
    }
    forall i | 0 <= i < |inp.averages|
      ensures ComputeRow(inp.averages[i], inp) in rows
    {
      assert u[i] in multiset(u);
      assert u[i] in multiset(rows);
    }
  }

  /** The PA score does not depend on group marks, the penalty, the PA weight or the not-submitted flags. */
  lemma PaScoreIndependentOfMarks(r: AverageRow, inp: GradeInputs, marks: map<string, real>, flagged: set<string>, paWeight: real, penalty: real)
    ensures ComputeRow(r, inp).paScore
         == ComputeRow(r, inp.(groupMarks := marks, notSubmitted := flagged,
                               config := inp.config.(paWeight := paWeight, penaltyPercent := penalty))).paScore
  {
  }

  /** Worked example A: average 132, team of 4, 4 criteria, group mark 80, PA weight 40%. */
  lemma ExampleA()
    ensures var inp := GradeInputs([AverageRow("T", "S", 132.0)], map["T" := 4], map["T" := 80.0], {}, GradeConfig(40.0, 0.0, 4.0));
      var b := ComputeRow(inp.averages[0], inp);
      b.paScore == 1.32 && b.weightedMark == 106 && b.individualMark == 90 && b.finalMark == 90
  {
    var inp := GradeInputs([AverageRow("T", "S", 132.0)], map["T" := 4], map["T" := 80.0], {}, GradeConfig(40.0, 0.0, 4.0));
    assert AverageOf(inp.averages, Key("T", "S")) == 132.0;
    assert Round0(132.0) == 132;
    assert PaScore(132.0, 4.0, 4) == 1.32;
    assert Round0(80.0 * 1.32) == 106;
    assert Round0(80.0 * 1.32 * 0.4 + 80.0 * 0.6) == 90;
  }

  /** Worked example B: average 86.5, team of 5, 4 criteria, group mark 91, PA 30%, penalty 10%, not submitted. */
  lemma ExampleB()
    ensures var inp := GradeInputs([AverageRow("T", "S", 86.5)], map["T" := 5], map["T" := 91.0], {Key("T", "S")}, GradeConfig(30.0, 10.0, 4.0));
      var b := ComputeRow(inp.averages[0], inp);
      b.paScore == 1.08 && b.weightedMark == 98 && b.individualMark == 93 && b.finalMark == 84
  {
    var inp := GradeInputs([AverageRow("T", "S", 86.5)], map["T" := 5], map["T" := 91.0], {Key("T", "S")}, GradeConfig(30.0, 10.0, 4.0));
    assert AverageOf(inp.averages, Key("T", "S")) == 86.5;
    assert Round0(108.125) == 108;
    assert PaScore(86.5, 4.0, 5) == 1.08;
    assert Round0(91.0 * 1.08) == 98;
    assert Round0(91.0 * 1.08 * 0.3 + 91.0 * 0.7) == 93;
    assert Penalised(93, 10.0) == 84;
  }

  /**
   * The penalty is rounded once, on `individual - individual * p / 100`; rounding
   * the deduction first would differ: 95 with a 10% penalty gives 86, not 85.
   */
  lemma PenaltyRoundedOnce()
    ensures Penalised(95, 10.0) == 86
    ensures Round0(95.0 - Round0(95.0 * 10.0 / 100.0) as real) == 85
  {
    assert Round0(85.5) == 86;
    assert Round0(9.5) == 10;
  }

  /**
   * The individual mark blends the unrounded weighted mark: with group mark 50,
   * PA score 1.01 and PA weight 50% it is 50, while blending the rounded
   * weighted mark (51) would give 51.
   */
  lemma IndividualBlendsUnroundedWeighted()
    ensures var inp := GradeInputs([AverageRow("T", "S", 101.0)], map["T" := 4], map["T" := 50.0], {}, GradeConfig(50.0, 0.0, 4.0));
      var b := ComputeRow(inp.averages[0], inp);
      b.paScore == 1.01 && b.weightedMark == 51 && b.individualMark == 50
      && Round0(b.weightedMark as real * 0.5 + 50.0 * 0.5) == 51
  {
    var inp := GradeInputs([AverageRow("T", "S", 101.0)], map["T" := 4], map["T" := 50.0], {}, GradeConfig(50.0, 0.0, 4.0));
    assert AverageOf(inp.averages, Key("T", "S")) == 101.0;
    assert Round0(101.0) == 101;
    assert PaScore(101.0, 4.0, 4) == 1.01;
    assert Round0(50.0 * 1.01) == 51;
    assert Round0(50.0 * 1.01 * 0.5 + 50.0 * 0.5) == 50;
  }

  const GroupMarkRequired: string := "team and groupMark (0\U{2013}100) are required"

  /**
   * Saving a team's group mark: the team must be non-empty and the mark numeric;
   * the mark is rounded and clamped to 0..100, the team name trimmed.
   */
  function SaveGroupMark(team: string, groupMark: Option<real>): (r: Result<(string, int), string>)
    ensures r.Success? <==> team != "" && groupMark.Some?
    ensures r.Failure? ==> r.error == GroupMarkRequired
    ensures r.Success? ==> r.value.0 == Trim(team) && 0 <= r.value.1 <= 100
    ensures r.Success? && 0.0 <= groupMark.value <= 100.0 ==>
      groupMark.value - 0.5 < r.value.1 as real <= groupMark.value + 0.5
    ensures r.Success? ==> r.value.1 as real == Clamp(Round0(groupMark.value) as real, 0.0, 100.0)
    ensures r.Success? && groupMark.value < 0.0 ==> r.value.1 == 0
    ensures r.Success? && groupMark.value >= 100.0 ==> r.value.1 == 100
  {
    if team == "" || groupMark.None? then Failure(GroupMarkRequired)
    else
      var n := Round0(groupMark.value);
      Success((Trim(team), if n < 0 then 0 else if n > 100 then 100 else n))
  }

  /** Saving a saved mark again changes nothing, and the breakdown shows it unchanged. */
  lemma SavedGroupMarkStable(team: string, x: real)
    requires team != ""
    ensures var gm := SaveGroupMark(team, Some(x)).value.1;
      SaveGroupMark(team, Some(gm as real)).value.1 == gm && Round0(gm as real) == gm
  {
  }
}
