/**
 * The aggregation the calculator reads: each student's average points (the
 * fallback query over stored summary rows and their points) and each team's
 * size (the number of distinct recipients in the team). The queries are
 * modelled by their meaning over the stored rows of one session.
 */
module Aggregates {
  import opened Base
  import opened Numbers
  import opened Grades

  /** A stored summary row: team, recipient, and the values of its stored points; `None` is SQL NULL. */
  datatype StoredSummary = StoredSummary(team: string, recipient: string, points: seq<Option<real>>)

  /** `SUM(CASE WHEN value IS NOT NULL THEN value ELSE 0 END)`. */
  function PointsSum(ps: seq<Option<real>>): real
    decreases |ps|
  {
    if ps == [] then 0.0 else ps[0].GetOr(0.0) + PointsSum(ps[1..])
  }

  /** `SUM(CASE WHEN value IS NOT NULL THEN 1 ELSE 0 END)`. */
  function PointsCount(ps: seq<Option<real>>): (n: nat)
    ensures n <= |ps|
    decreases |ps|
  {
    if ps == [] then 0 else (if ps[0].Some? then 1 else 0) + PointsCount(ps[1..])
  }

  /** The mean of a summary row's present points, 0 when it has none. */
  function RowMean(ps: seq<Option<real>>): (m: real)
    ensures PointsCount(ps) == 0 ==> m == 0.0
    ensures PointsCount(ps) > 0 ==> m * PointsCount(ps) as real == PointsSum(ps)
  {
    var n := PointsCount(ps);
    if n > 0 then PointsSum(ps) / n as real else 0.0
  }

  /** Both sums add up over a concatenation. */
  lemma {:induction false} PointsAppend(a: seq<Option<real>>, b: seq<Option<real>>)
    ensures PointsSum(a + b) == PointsSum(a) + PointsSum(b)
    ensures PointsCount(a + b) == PointsCount(a) + PointsCount(b)
    decreases |a|
  {
    if a == [] {
      assert a + b == b;
    } else {
      assert (a + b)[1..] == a[1..] + b;
      PointsAppend(a[1..], b);
    }
  }

  /** An absent point, wherever it sits, changes neither the sum, the count nor the mean. */
  lemma AbsentPointIgnored(a: seq<Option<real>>, b: seq<Option<real>>)
    ensures PointsSum(a + [None] + b) == PointsSum(a + b)
    ensures PointsCount(a + [None] + b) == PointsCount(a + b)
    ensures RowMean(a + [None] + b) == RowMean(a + b)
  {
    PointsAppend(a + [None], b);
    PointsAppend(a, [None]);
    PointsAppend(a, b);
    assert PointsSum([None]) == 0.0 && PointsCount([None]) == 0 by {
      var none: seq<Option<real>> := [None];
      assert none[1..] == [];
    }
  }

  /** Every present point lies within `lo..hi`. */
  predicate PointsWithin(ps: seq<Option<real>>, lo: real, hi: real) {
    forall k :: 0 <= k < |ps| && ps[k].Some? ==> lo <= ps[k].value <= hi
  }

  /** `k` added once per present point: `k` times the count, kept as a sum so bounds stay linear. */
  function Scaled(ps: seq<Option<real>>, k: real): real
    decreases |ps|
  {
    if ps == [] then 0.0 else (if ps[0].Some? then k else 0.0) + Scaled(ps[1..], k)
  }

  lemma {:induction false} ScaledIsProduct(ps: seq<Option<real>>, k: real)
    ensures Scaled(ps, k) == k * PointsCount(ps) as real
    decreases |ps|
  {
    if ps != [] {
      ScaledIsProduct(ps[1..], k);
      var c := PointsCount(ps[1..]) as real;
      assert k * (c + 1.0) == k * c + k;
    }
  }

  lemma {:induction false} SumWithin(ps: seq<Option<real>>, lo: real, hi: real)
    requires PointsWithin(ps, lo, hi)
    ensures Scaled(ps, lo) <= PointsSum(ps) <= Scaled(ps, hi)
    decreases |ps|
  {
    if ps != [] {
      WithinTail(ps, lo, hi);
      SumWithin(ps[1..], lo, hi);
    }
  }

  lemma WithinTail(ps: seq<Option<real>>, lo: real, hi: real)
    requires ps != [] && PointsWithin(ps, lo, hi)
    ensures PointsWithin(ps[1..], lo, hi)
  {
    forall k | 0 <= k < |ps[1..]| && ps[1..][k].Some?
      ensures lo <= ps[1..][k].value <= hi
    {
      assert ps[1..][k] == ps[k + 1];
    }
  }

  /** A quotient with a positive divisor: `lo * n <= s <= hi * n` bounds `s / n` by `lo` and `hi`. */
  lemma QuotientWithin(s: real, n: real, lo: real, hi: real)
    requires n > 0.0 && lo * n <= s <= hi * n
    ensures lo <= s / n <= hi
  {
    assert s / n - lo == (s - lo * n) / n;
    assert hi - s / n == (hi * n - s) / n;
  }

  /** The mean of a row whose present points lie within `lo..hi` lies within `lo..hi` too. */
  lemma MeanWithin(ps: seq<Option<real>>, lo: real, hi: real)
    requires PointsWithin(ps, lo, hi) && PointsCount(ps) > 0
    ensures lo <= RowMean(ps) <= hi
  {
    SumWithin(ps, lo, hi);
    ScaledIsProduct(ps, lo);
    ScaledIsProduct(ps, hi);
    QuotientWithin(PointsSum(ps), PointsCount(ps) as real, lo, hi);
  }

  /** The rows of the student `(team, student)`. */
  predicate Of(s: StoredSummary, team: string, student: string) {
    s.team == team && s.recipient == student
  }

  /** The sum, over the student's summary rows, of each row's mean. */
  function MeanSum(rows: seq<StoredSummary>, team: string, student: string): real
    decreases |rows|
  {
    if rows == [] then 0.0
    else (if Of(rows[0], team, student) then RowMean(rows[0].points) else 0.0) + MeanSum(rows[1..], team, student)
  }

  /** Number of the student's summary rows. */
  function RowsOf(rows: seq<StoredSummary>, team: string, student: string): (n: nat)
    ensures n <= |rows|
    decreases |rows|
  {
    if rows == [] then 0
    else (if Of(rows[0], team, student) then 1 else 0) + RowsOf(rows[1..], team, student)
  }

  /** The student's average points: the sum of per-row means, rounded to two decimals. */
  function AveragePoints(rows: seq<StoredSummary>, team: string, student: string): (avg: real)
    ensures IsCents(avg)
    ensures var s := MeanSum(rows, team, student); s - 0.005 <= avg <= s + 0.005
    ensures RowsOf(rows, team, student) == 0 ==> avg == 0.0
  {
    NoRowsNoMeans(rows, team, student);
    assert Round0(0.0) == 0;
    RoundAway2(MeanSum(rows, team, student))
  }

  lemma {:induction false} NoRowsNoMeans(rows: seq<StoredSummary>, team: string, student: string)
    ensures RowsOf(rows, team, student) == 0 ==> MeanSum(rows, team, student) == 0.0
    decreases |rows|
  {
    if rows != [] {
      NoRowsNoMeans(rows[1..], team, student);
    }
  }

  /** Every stored point lies within `lo..hi`. */
  predicate AllPointsWithin(rows: seq<StoredSummary>, lo: real, hi: real) {
    forall i :: 0 <= i < |rows| ==> PointsWithin(rows[i].points, lo, hi)
  }

  /** `k` added once per row of the student, kept as a sum so bounds stay linear. */
  function ScaledRows(rows: seq<StoredSummary>, team: string, student: string, k: real): real
    decreases |rows|
  {
    if rows == [] then 0.0
    else (if Of(rows[0], team, student) then k else 0.0) + ScaledRows(rows[1..], team, student, k)
  }

  lemma {:induction false} ScaledRowsIsProduct(rows: seq<StoredSummary>, team: string, student: string, k: real)
    ensures ScaledRows(rows, team, student, k) == k * RowsOf(rows, team, student) as real
    decreases |rows|
  {
    if rows != [] {
      ScaledRowsIsProduct(rows[1..], team, student, k);
      var c := RowsOf(rows[1..], team, student) as real;
      assert k * (c + 1.0) == k * c + k;
    }
  }

  lemma {:induction false} MeanSumBelow(rows: seq<StoredSummary>, team: string, student: string, hi: real)
    requires 0.0 <= hi && AllPointsWithin(rows, 0.0, hi)
    ensures 0.0 <= MeanSum(rows, team, student) <= ScaledRows(rows, team, student, hi)
    decreases |rows|
  {
    if rows != [] {
      assert AllPointsWithin(rows[1..], 0.0, hi) by {
        forall i | 0 <= i < |rows[1..]|
          ensures PointsWithin(rows[1..][i].points, 0.0, hi)
        {
          assert rows[1..][i] == rows[i + 1];
        }
      }
      MeanSumBelow(rows[1..], team, student, hi);
      var ps := rows[0].points;
      assert PointsWithin(ps, 0.0, hi);
      if PointsCount(ps) > 0 {
        MeanWithin(ps, 0.0, hi);
      }
    }
  }

  /**
   * With every point within `0..hi`, a student's sum of means lies within `0`
   * and `hi` times the number of the student's rows (one per criterion).
   */
  lemma MeanSumWithin(rows: seq<StoredSummary>, team: string, student: string, hi: real)
    requires 0.0 <= hi && AllPointsWithin(rows, 0.0, hi)
    ensures 0.0 <= MeanSum(rows, team, student) <= hi * RowsOf(rows, team, student) as real
  {
    MeanSumBelow(rows, team, student, hi);
    ScaledRowsIsProduct(rows, team, student, hi);
  }

  /** With non-negative points, average points are never negative, so the PA score is never negative. */
  lemma AverageNonNegative(rows: seq<StoredSummary>, team: string, student: string, hi: real, numCriteria: real, teamSize: nat)
    requires 0.0 <= hi && AllPointsWithin(rows, 0.0, hi)
    ensures AveragePoints(rows, team, student) >= 0.0
    ensures PaScore(AveragePoints(rows, team, student), numCriteria, teamSize) >= 0.0
  {
    MeanSumWithin(rows, team, student, hi);
    var s := MeanSum(rows, team, student);
    assert RoundAway2(s) == Round2(s);
    assert Round0(s * 100.0) >= 0;
  }

  // ---------- Groups and team sizes ----------

  /** The `(team, student)` pair a summary row is grouped under. */
  function PairOf(s: StoredSummary): (string, string) {
    (s.team, s.recipient)
  }

  /** The distinct `(team, student)` pairs of the stored rows. */
  function Pairs(rows: seq<StoredSummary>): set<(string, string)> {
    set i | 0 <= i < |rows| :: PairOf(rows[i])
  }

  /**
   * The groups of the aggregate query: the distinct pairs, in order of first
   * appearance rather than the query's `ORDER BY team, student`; the breakdown
   * sorts its rows itself, so the order here does not reach the result.
   */
  function Groups(rows: seq<StoredSummary>): (gs: seq<(string, string)>)
    ensures forall i, j :: 0 <= i < j < |gs| ==> gs[i] != gs[j]
    ensures forall p :: p in gs <==> p in Pairs(rows)
    decreases |rows|
  {
    if rows == [] then []
    else
      var init := rows[..|rows| - 1];
      var p := PairOf(rows[|rows| - 1]);
      var gs := Groups(init);
      assert Pairs(rows) == Pairs(init) + {p} by {
        forall q | q in Pairs(rows)
          ensures q in Pairs(init) + {p}
        {
          var i :| 0 <= i < |rows| && PairOf(rows[i]) == q;
          if i < |rows| - 1 {
            assert init[i] == rows[i];
          }
        }
        forall q | q in Pairs(init)
          ensures q in Pairs(rows)
        {
          var i :| 0 <= i < |init| && PairOf(init[i]) == q;
          assert rows[i] == init[i];
        }
      }
      if p in gs then gs else gs + [p]
  }

  /** The aggregate rows: one per distinct `(team, student)` with that student's average points. */
  function AverageRows(rows: seq<StoredSummary>): (avgs: seq<AverageRow>)
    ensures |avgs| == |Groups(rows)|
    ensures forall i :: 0 <= i < |avgs| ==>
      (avgs[i].team, avgs[i].student) == Groups(rows)[i]
      && avgs[i].averagePoints == AveragePoints(rows, avgs[i].team, avgs[i].student)
  {
    var gs := Groups(rows);
    seq(|gs|, i requires 0 <= i < |gs| => AverageRow(gs[i].0, gs[i].1, AveragePoints(rows, gs[i].0, gs[i].1)))
  }

  /** Every student with a stored summary row has exactly one aggregate row, and every aggregate row has summary rows. */
  lemma AverageRowsCoverStudents(rows: seq<StoredSummary>)
    ensures forall i :: 0 <= i < |rows| ==>
      exists k :: 0 <= k < |AverageRows(rows)| && AverageRows(rows)[k].team == rows[i].team && AverageRows(rows)[k].student == rows[i].recipient
    ensures forall k :: 0 <= k < |AverageRows(rows)| ==> RowsOf(rows, AverageRows(rows)[k].team, AverageRows(rows)[k].student) > 0
    ensures forall k, l :: 0 <= k < l < |AverageRows(rows)| ==>
      (AverageRows(rows)[k].team, AverageRows(rows)[k].student) != (AverageRows(rows)[l].team, AverageRows(rows)[l].student)
  {
    var avgs := AverageRows(rows);
    var gs := Groups(rows);
    forall i | 0 <= i < |rows|
      ensures exists k :: 0 <= k < |avgs| && avgs[k].team == rows[i].team && avgs[k].student == rows[i].recipient
    {
      assert PairOf(rows[i]) in Pairs(rows);
      var k :| 0 <= k < |gs| && gs[k] == PairOf(rows[i]);
      assert avgs[k].team == rows[i].team && avgs[k].student == rows[i].recipient;
    }
    forall k | 0 <= k < |avgs|
      ensures RowsOf(rows, avgs[k].team, avgs[k].student) > 0
    {
      assert gs[k] in Pairs(rows);
      var i :| 0 <= i < |rows| && PairOf(rows[i]) == gs[k];
      RowsOfPositive(rows, i, avgs[k].team, avgs[k].student);
    }
  }

  lemma {:induction false} RowsOfPositive(rows: seq<StoredSummary>, i: nat, team: string, student: string)
    requires i < |rows| && Of(rows[i], team, student)
    ensures RowsOf(rows, team, student) > 0
    decreases |rows|
  {
    if i > 0 {
      assert rows[1..][i - 1] == rows[i];
      RowsOfPositive(rows[1..], i - 1, team, student);
    }
  }

  /** The recipients of a team's summary rows. */
  function Recipients(rows: seq<StoredSummary>, team: string): set<string> {
    set i | 0 <= i < |rows| && rows[i].team == team :: rows[i].recipient
  }

  /** `COUNT(DISTINCT recipient)` of a team. */
  function TeamSize(rows: seq<StoredSummary>, team: string): nat {
    |Recipients(rows, team)|
  }

  /** The team-size map: one entry per team that has summary rows. */
  function TeamSizes(rows: seq<StoredSummary>): (ts: map<string, nat>)
    ensures forall t :: t in ts <==> exists i :: 0 <= i < |rows| && rows[i].team == t
    ensures forall t :: t in ts ==> ts[t] == TeamSize(rows, t)
  {
    map t | t in (set i | 0 <= i < |rows| :: rows[i].team) :: TeamSize(rows, t)
  }

  /** A team has a positive size exactly when it has a summary row. */
  lemma TeamSizePositive(rows: seq<StoredSummary>, team: string)
    ensures TeamSize(rows, team) > 0 <==> exists i :: 0 <= i < |rows| && rows[i].team == team
  {
    if i :| 0 <= i < |rows| && rows[i].team == team {
      assert rows[i].recipient in Recipients(rows, team);
    }
  }

  /**
   * A further summary row adds one to its team's size exactly when its recipient
   * is new to the team; other teams keep their size.
   */
  lemma TeamSizeAppend(rows: seq<StoredSummary>, s: StoredSummary, team: string)
    ensures TeamSize(rows + [s], team)
         == TeamSize(rows, team) + (if s.team == team && s.recipient !in Recipients(rows, team) then 1 else 0)
  {
    var before := Recipients(rows, team);
    RecipientsAppend(rows, s, team);
    if s.team == team {
      if s.recipient !in before {
        assert |before + {s.recipient}| == |before| + 1;
      } else {
        assert before + {s.recipient} == before;
      }
    } else {
      assert before + {} == before;
    }
  }

  /** A further summary row adds its recipient to its own team's recipients and to no other team's. */
  lemma RecipientsAppend(rows: seq<StoredSummary>, s: StoredSummary, team: string)
    ensures Recipients(rows + [s], team) == Recipients(rows, team) + (if s.team == team then {s.recipient} else {})
  {
    RecipientsAppendWithin(rows, s, team);
    RecipientsAppendKeeps(rows, s, team);
  }

  lemma RecipientsAppendWithin(rows: seq<StoredSummary>, s: StoredSummary, team: string)
    ensures Recipients(rows + [s], team) <= Recipients(rows, team) + (if s.team == team then {s.recipient} else {})
  {
    var more := rows + [s];
    forall x | x in Recipients(more, team)
      ensures x in Recipients(rows, team) + (if s.team == team then {s.recipient} else {})
    {
      var i :| 0 <= i < |more| && more[i].team == team && more[i].recipient == x;
      if i < |rows| {
        assert more[i] == rows[i];
      }
    }
  }

  lemma RecipientsAppendKeeps(rows: seq<StoredSummary>, s: StoredSummary, team: string)
    ensures Recipients(rows, team) + (if s.team == team then {s.recipient} else {}) <= Recipients(rows + [s], team)
  {
    var more := rows + [s];
    forall x | x in Recipients(rows, team)
      ensures x in Recipients(more, team)
    {
      var i :| 0 <= i < |rows| && rows[i].team == team && rows[i].recipient == x;
      assert more[i] == rows[i];
    }
    if s.team == team {
      assert more[|rows|] == s;
    }
  }

  /** Every team in the aggregate rows has a team-size entry of at least one. */
  lemma TeamsHaveSizes(rows: seq<StoredSummary>)
    ensures forall k :: 0 <= k < |AverageRows(rows)| ==>
      AverageRows(rows)[k].team in TeamSizes(rows) && TeamSizes(rows)[AverageRows(rows)[k].team] >= 1
  {
    var avgs := AverageRows(rows);
    var gs := Groups(rows);
    forall k | 0 <= k < |avgs|
      ensures avgs[k].team in TeamSizes(rows) && TeamSizes(rows)[avgs[k].team] >= 1
    {
      assert gs[k] in Pairs(rows);
      var i :| 0 <= i < |rows| && PairOf(rows[i]) == gs[k];
      TeamSizePositive(rows, avgs[k].team);
    }
  }

  // ---------- Handing the aggregates to the calculator ----------

  /** With no `|` in team names, the key `team||student` determines the team and the student. */
  lemma KeyInjective(t1: string, s1: string, t2: string, s2: string)
    requires '|' !in t1 && '|' !in t2
    ensures Key(t1, s1) == Key(t2, s2) <==> t1 == t2 && s1 == s2
  {
    var k1 := Key(t1, s1);
    var k2 := Key(t2, s2);
    if k1 == k2 {
      assert k1[..|t1|] == t1 && k1[|t1|] == '|';
      assert k2[..|t2|] == t2 && k2[|t2|] == '|';
      assert |t1| == |t2|;
      assert s1 == k1[|t1| + 2..] && s2 == k2[|t2| + 2..];
    }
  }

  /** No stored team name contains `|`. */
  predicate PlainTeamNames(rows: seq<StoredSummary>) {
    forall i :: 0 <= i < |rows| ==> '|' !in rows[i].team
  }

  /** With plain team names the aggregate rows have distinct lookup keys. */
  lemma AverageRowsDistinctKeys(rows: seq<StoredSummary>)
    requires PlainTeamNames(rows)
    ensures DistinctKeys(AverageRows(rows))
  {
    var avgs := AverageRows(rows);
    var gs := Groups(rows);
    forall k | 0 <= k < |avgs|
      ensures '|' !in avgs[k].team
    {
      assert gs[k] in Pairs(rows);
      var i :| 0 <= i < |rows| && PairOf(rows[i]) == gs[k];
    }
    forall k, l | 0 <= k < l < |avgs|
      ensures Key(avgs[k].team, avgs[k].student) != Key(avgs[l].team, avgs[l].student)
    {
      KeyInjective(avgs[k].team, avgs[k].student, avgs[l].team, avgs[l].student);
      assert gs[k] != gs[l];
    }
  }

  /**
   * The calculator, given these aggregate rows, looks up for every stored
   * student exactly that student's average points.
   */
  lemma CalculatorSeesAverage(rows: seq<StoredSummary>, i: nat)
    requires PlainTeamNames(rows) && i < |rows|
    ensures AverageOf(AverageRows(rows), Key(rows[i].team, rows[i].recipient))
         == AveragePoints(rows, rows[i].team, rows[i].recipient)
  {
    AverageRowsCoverStudents(rows);
    AverageRowsDistinctKeys(rows);
    var avgs := AverageRows(rows);
    var k :| 0 <= k < |avgs| && avgs[k].team == rows[i].team && avgs[k].student == rows[i].recipient;
    AverageOfDistinct(avgs, k);
  }
}
