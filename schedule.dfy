/**
 * `build_schedule_with_metrics` (app.py) and the "Missing Stats" count shown
 * beside it: joins each fixture to the stats of its two teams by normalised
 * name and derives the xGDiff score.
 */
module Schedule {
  import opened Wrappers
  import Seqs
  import Stats
  import Fixtures

  /** The fixed calibration constants of xGDiff. */
  const HomeWeight: real := 5.0
  const AwayWeight: real := -4.6
  /** The `period` of a fixture that has not started. */
  const PreMatch: string := "PreMatch"

  /** A row of the schedule: the fixture with `Home Team %`, `Away Team %`,
   *  `home_metric`, `away_metric` and `xGDiff` (each `None` where pandas has NaN). */
  datatype ScheduleRow = ScheduleRow(
    fixture: Fixtures.FixtureRow,
    homePct: Option<real>, awayPct: Option<real>,
    homeMetric: Option<real>, awayMetric: Option<real>,
    xgDiff: Option<real>)

  /** No later position holds the key at position `i`. */
  predicate LastWith(keys: seq<string>, i: int)
    requires 0 <= i < |keys|
  {
    forall j :: i < j < |keys| ==> keys[j] != keys[i]
  }

  /** `dict(zip(keys, vals))`: a later pair overwrites an earlier one. */
  function Zip(keys: seq<string>, vals: seq<Option<real>>): (m: map<string, Option<real>>)
    requires |keys| == |vals|
    ensures forall k :: k in m <==> k in keys
    ensures forall i :: 0 <= i < |keys| && LastWith(keys, i) ==> m[keys[i]] == vals[i]
  {
    if |keys| == 0 then map[]
    else
      var n := |keys| - 1;
      ZipStep(keys, vals);
      Zip(keys[..n], vals[..n])[keys[n] := vals[n]]
  }

  /** Dropping the last pair keeps every other key, and every last position
   *  before it is still a last position, of a different key. */
  lemma ZipStep(keys: seq<string>, vals: seq<Option<real>>)
    requires 0 < |keys| == |vals|
    ensures var n := |keys| - 1;
      (forall k :: k in keys <==> k in keys[..n] || k == keys[n])
      && forall i :: 0 <= i < n && LastWith(keys, i) ==>
           LastWith(keys[..n], i) && keys[..n][i] == keys[i] && keys[i] != keys[n]
           && vals[..n][i] == vals[i]
  {
    var n := |keys| - 1;
    assert keys == keys[..n] + [keys[n]];
  }

  /** Every key of the map comes from a last position holding it. */
  lemma {:induction false} ZipLastPosition(keys: seq<string>, k: string)
    requires k in keys
    ensures exists i :: 0 <= i < |keys| && keys[i] == k && LastWith(keys, i)
  {
    var n := |keys| - 1;
    if keys[n] == k {
      assert LastWith(keys, n);
    } else {
      assert k in keys[..n] by {
        var j :| 0 <= j < |keys| && keys[j] == k;
        assert keys[..n][j] == k;
      }
      ZipLastPosition(keys[..n], k);
      var i :| 0 <= i < n && keys[..n][i] == k && LastWith(keys[..n], i);
      assert LastWith(keys, i);
    }
  }

  function Keys(stats: seq<Stats.StatRow>): (ks: seq<string>)
    ensures |ks| == |stats|
  {
    seq(|stats|, i requires 0 <= i < |stats| => stats[i].key)
  }

  function Metrics(stats: seq<Stats.StatRow>): (vs: seq<Option<real>>)
    ensures |vs| == |stats|
  {
    seq(|stats|, i requires 0 <= i < |stats| => stats[i].metric)
  }

  function Pcts(stats: seq<Stats.StatRow>): (vs: seq<Option<real>>)
    ensures |vs| == |stats|
  {
    seq(|stats|, i requires 0 <= i < |stats| => stats[i].pct)
  }

  /** `metric_by_name`: every stats key, mapped to the ratio of the last row
   *  holding it. */
  function MetricByName(stats: seq<Stats.StatRow>): (m: map<string, Option<real>>)
    ensures forall k :: k in m <==> exists j :: 0 <= j < |stats| && stats[j].key == k
    ensures forall j :: 0 <= j < |stats| && LastWith(Keys(stats), j) ==> m[stats[j].key] == stats[j].metric
  {
    var ks := Keys(stats);
    assert forall j :: 0 <= j < |stats| ==> ks[j] == stats[j].key;
    Zip(ks, Metrics(stats))
  }

  /** `pct_by_name`: every stats key, mapped to the percentage of the last row
   *  holding it. */
  function PctByName(stats: seq<Stats.StatRow>): (m: map<string, Option<real>>)
    ensures forall k :: k in m <==> exists j :: 0 <= j < |stats| && stats[j].key == k
    ensures forall j :: 0 <= j < |stats| && LastWith(Keys(stats), j) ==> m[stats[j].key] == stats[j].pct
  {
    var ks := Keys(stats);
    assert forall j :: 0 <= j < |stats| ==> ks[j] == stats[j].key;
    Zip(ks, Pcts(stats))
  }

  /** `Series.map(d)`: NaN for a key `d` lacks, and NaN for a NaN value. */
  function Resolve(m: map<string, Option<real>>, k: string): (v: Option<real>)
    ensures k in m ==> v == m[k]
    ensures k !in m ==> v.None?
  {
    if k in m then m[k] else None
  }

  /** Looking a team up in either dict gives the last stats row with its key,
   *  whether or not the keys are distinct. */
  lemma LookupGivesLastRow(stats: seq<Stats.StatRow>, j: int)
    requires 0 <= j < |stats| && LastWith(Keys(stats), j)
    ensures Resolve(MetricByName(stats), stats[j].key) == stats[j].metric
    ensures Resolve(PctByName(stats), stats[j].key) == stats[j].pct
  {
  }

  /** `home * 5.0 + away * -4.6`, NaN as soon as either side is. */
  function XgDiff(home: Option<real>, away: Option<real>): (x: Option<real>)
    ensures x.Some? <==> home.Some? && away.Some?
  {
    if home.Some? && away.Some? then Some(home.value * HomeWeight + away.value * AwayWeight)
    else None
  }

  /** One schedule row: the fixture with both teams' ratios and percentages
   *  looked up by join key, and the xGDiff of the two ratios. */
  function Enrich(f: Fixtures.FixtureRow, metrics: map<string, Option<real>>,
                  pcts: map<string, Option<real>>): (r: ScheduleRow)
    ensures r.fixture == f
    ensures r.homeMetric == Resolve(metrics, f.homeKey) && r.awayMetric == Resolve(metrics, f.awayKey)
    ensures r.homePct == Resolve(pcts, f.homeKey) && r.awayPct == Resolve(pcts, f.awayKey)
    ensures r.xgDiff.Some? <==> r.homeMetric.Some? && r.awayMetric.Some?
    ensures r.xgDiff.Some? ==> r.xgDiff.value == 5.0 * r.homeMetric.value - 4.6 * r.awayMetric.value
  {
    var hm := Resolve(metrics, f.homeKey);
    var am := Resolve(metrics, f.awayKey);
    ScheduleRow(f, Resolve(pcts, f.homeKey), Resolve(pcts, f.awayKey), hm, am, XgDiff(hm, am))
  }

  predicate IsPreMatch(f: Fixtures.FixtureRow) {
    f.period == Some(PreMatch)
  }

  /** `matches_df[matches_df["period"] == "PreMatch"]`. */
  function SelectPreMatch(rows: seq<Fixtures.FixtureRow>): (r: seq<Fixtures.FixtureRow>)
    ensures forall i :: 0 <= i < |r| ==> IsPreMatch(r[i])
    ensures forall x :: multiset(r)[x] == if IsPreMatch(x) then multiset(rows)[x] else 0
  {
    if rows == [] then []
    else
      assert rows == [rows[0]] + rows[1..];
      var rest := SelectPreMatch(rows[1..]);
      if IsPreMatch(rows[0]) then [rows[0]] + rest else rest
  }

  function Selected(matches: seq<Fixtures.FixtureRow>, prematchOnly: bool): seq<Fixtures.FixtureRow> {
    if prematchOnly then SelectPreMatch(matches) else matches
  }

  /** `build_schedule_with_metrics(stats_df, matches_df, prematch_only)`. */
  function BuildScheduleWithMetrics(stats: seq<Stats.StatRow>, matches: seq<Fixtures.FixtureRow>,
                                    prematchOnly: bool): (out: seq<ScheduleRow>)
    ensures |out| == |Selected(matches, prematchOnly)|
    ensures forall i :: 0 <= i < |out| ==>
      out[i] == Enrich(Selected(matches, prematchOnly)[i], MetricByName(stats), PctByName(stats))
  {
    if matches == [] then []
    else
      var selected := Selected(matches, prematchOnly);
      var metrics, pcts := MetricByName(stats), PctByName(stats);
      seq(|selected|, i requires 0 <= i < |selected| => Enrich(selected[i], metrics, pcts))
  }

  function FixturesOf(out: seq<ScheduleRow>): seq<Fixtures.FixtureRow> {
    seq(|out|, i requires 0 <= i < |out| => out[i].fixture)
  }

  /** A row counts as missing stats when either percentage is NaN. */
  predicate IsMissing(r: ScheduleRow) {
    r.homePct.None? || r.awayPct.None?
  }

  /** `schedule[["Home Team %", "Away Team %"]].isna().any(axis=1).sum()`. */
  function MissingCount(out: seq<ScheduleRow>): (c: nat)
    ensures c <= |out|
    ensures c == 0 <==> forall i :: 0 <= i < |out| ==> !IsMissing(out[i])
    ensures c == |out| <==> forall i :: 0 <= i < |out| ==> IsMissing(out[i])
  {
    if out == [] then 0
    else
      assert forall i :: 1 <= i < |out| ==> out[i] == out[1..][i - 1];
      (if IsMissing(out[0]) then 1 else 0) + MissingCount(out[1..])
  }

  /** The positions of the rows missing a percentage. */
  function MissingRows(out: seq<ScheduleRow>): set<int> {
    set i | 0 <= i < |out| && IsMissing(out[i])
  }

  lemma {:induction false} MissingCountSnoc(s: seq<ScheduleRow>, x: ScheduleRow)
    ensures MissingCount(s + [x]) == MissingCount(s) + (if IsMissing(x) then 1 else 0)
    decreases |s|
  {
    if s != [] {
      assert (s + [x])[0] == s[0];
      assert (s + [x])[1..] == s[1..] + [x];
      MissingCountSnoc(s[1..], x);
    }
  }

  /** Counting the first `n` rows adds one for each missing position below `n`. */
  lemma {:induction false} MissingCountPrefix(out: seq<ScheduleRow>, n: nat)
    requires n <= |out|
    ensures MissingCount(out[..n]) == |set i | 0 <= i < n && IsMissing(out[i])|
    decreases n
  {
    if n == 0 {
      assert out[..0] == [];
    } else {
      var m := n - 1;
      MissingCountPrefix(out, m);
      assert out[..n] == out[..m] + [out[m]];
      MissingCountSnoc(out[..m], out[m]);
      var below := set i | 0 <= i < m && IsMissing(out[i]);
      var upto := set i | 0 <= i < n && IsMissing(out[i]);
      if IsMissing(out[m]) {
        assert upto == below + {m};
        assert m !in below;
      } else {
        assert upto == below;
      }
    }
  }

  /** The missing-stats figure is the number of rows with either percentage NaN. */
  lemma MissingCountIsRowsMissing(out: seq<ScheduleRow>)
    ensures MissingCount(out) == |MissingRows(out)|
  {
    MissingCountPrefix(out, |out|);
    assert out[..|out|] == out;
  }

  /** The number of rows whose xGDiff is NaN. */
  function UndefinedXgDiffCount(out: seq<ScheduleRow>): nat {
    if out == [] then 0
    else (if out[0].xgDiff.None? then 1 else 0) + UndefinedXgDiffCount(out[1..])
  }

  // ------------------------------------------------------------------ lemmas

  lemma NoFixturesNoSchedule(stats: seq<Stats.StatRow>, prematchOnly: bool)
    ensures BuildScheduleWithMetrics(stats, [], prematchOnly) == []
  {
  }

  /** Without the filter every fixture appears, in order; with it exactly the
   *  PreMatch fixtures appear, in their original order. */
  lemma ScheduleFixtures(stats: seq<Stats.StatRow>, matches: seq<Fixtures.FixtureRow>, prematchOnly: bool)
    ensures var fs := FixturesOf(BuildScheduleWithMetrics(stats, matches, prematchOnly));
      (!prematchOnly ==> fs == matches)
      && (prematchOnly ==>
            fs == SelectPreMatch(matches)
            && Seqs.Subsequence(fs, matches)
            && (forall i :: 0 <= i < |fs| ==> IsPreMatch(fs[i]))
            && forall x :: multiset(fs)[x] == if IsPreMatch(x) then multiset(matches)[x] else 0)
  {
    var fs := FixturesOf(BuildScheduleWithMetrics(stats, matches, prematchOnly));
    if matches != [] {
      assert fs == Selected(matches, prematchOnly);
    }
    if prematchOnly {
      SelectPreMatchIsSubsequence(matches);
    }
  }

  lemma {:induction false} SelectPreMatchIsSubsequence(rows: seq<Fixtures.FixtureRow>)
    ensures Seqs.Subsequence(SelectPreMatch(rows), rows)
  {
    if rows != [] {
      SelectPreMatchIsSubsequence(rows[1..]);
      var r := SelectPreMatch(rows);
      if IsPreMatch(rows[0]) {
        assert r[0] == rows[0] && r[1..] == SelectPreMatch(rows[1..]);
      } else if r != [] {
        assert IsPreMatch(r[0]);
        assert r[0] != rows[0];
      }
    }
  }

  /** With unique keys (as the stats loader guarantees), a team's metric and
   *  percentage are those of its stats row, and a team without a stats row has
   *  neither. */
  lemma LookupByUniqueKey(stats: seq<Stats.StatRow>, k: string)
    requires forall i, j :: 0 <= i < j < |stats| ==> stats[i].key != stats[j].key
    ensures forall j :: 0 <= j < |stats| && stats[j].key == k ==>
      Resolve(MetricByName(stats), k) == stats[j].metric && Resolve(PctByName(stats), k) == stats[j].pct
    ensures (forall j :: 0 <= j < |stats| ==> stats[j].key != k) ==>
      Resolve(MetricByName(stats), k) == None && Resolve(PctByName(stats), k) == None
  {
    var ks := Keys(stats);
    forall j | 0 <= j < |stats| && stats[j].key == k
      ensures Resolve(MetricByName(stats), k) == stats[j].metric
      ensures Resolve(PctByName(stats), k) == stats[j].pct
    {
      assert LastWith(ks, j);
      assert ks[j] == k;
      assert k in ks;
    }
    if k in ks {
      var j :| 0 <= j < |ks| && ks[j] == k;
    }
  }

  /** When the stats agree on which rows have a ratio (as every loaded table
   *  does), a team's percentage is defined exactly when its ratio is. */
  lemma PctDefinedIffMetric(stats: seq<Stats.StatRow>, k: string)
    requires Stats.PctMatchesMetric(stats)
    ensures Resolve(PctByName(stats), k).Some? <==> Resolve(MetricByName(stats), k).Some?
  {
    var ks := Keys(stats);
    var metrics, pcts := MetricByName(stats), PctByName(stats);
    if k in metrics {
      ZipLastPosition(ks, k);
      var i :| 0 <= i < |ks| && ks[i] == k && LastWith(ks, i);
      assert metrics[k] == Metrics(stats)[i] && pcts[k] == Pcts(stats)[i];
    }
  }

  /** Each schedule row is its fixture joined with its teams' stats, and its
   *  xGDiff is `5.0 * home - 4.6 * away`, defined exactly when both teams'
   *  ratios are. */
  lemma ScheduleRowJoin(stats: seq<Stats.StatRow>, matches: seq<Fixtures.FixtureRow>,
                        prematchOnly: bool, i: int)
    requires 0 <= i < |BuildScheduleWithMetrics(stats, matches, prematchOnly)|
    ensures var r := BuildScheduleWithMetrics(stats, matches, prematchOnly)[i];
      r.homeMetric == Resolve(MetricByName(stats), r.fixture.homeKey)
      && r.awayMetric == Resolve(MetricByName(stats), r.fixture.awayKey)
      && r.homePct == Resolve(PctByName(stats), r.fixture.homeKey)
      && r.awayPct == Resolve(PctByName(stats), r.fixture.awayKey)
      && (r.xgDiff.Some? <==> r.homeMetric.Some? && r.awayMetric.Some?)
      && (r.xgDiff.Some? ==> r.xgDiff.value == 5.0 * r.homeMetric.value - 4.6 * r.awayMetric.value)
  {
  }

  /** A row counts as missing stats exactly when its xGDiff is undefined, so the
   *  "Missing Stats" figure is the number of rows without an xGDiff. */
  lemma MissingCountIsUndefinedXgDiff(stats: seq<Stats.StatRow>, matches: seq<Fixtures.FixtureRow>,
                                      prematchOnly: bool)
    requires Stats.PctMatchesMetric(stats)
    ensures var out := BuildScheduleWithMetrics(stats, matches, prematchOnly);
      (forall i :: 0 <= i < |out| ==> (IsMissing(out[i]) <==> out[i].xgDiff.None?))
      && MissingCount(out) == UndefinedXgDiffCount(out)
  {
    var out := BuildScheduleWithMetrics(stats, matches, prematchOnly);
    forall i | 0 <= i < |out|
      ensures IsMissing(out[i]) <==> out[i].xgDiff.None?
    {
      PctDefinedIffMetric(stats, out[i].fixture.homeKey);
      PctDefinedIffMetric(stats, out[i].fixture.awayKey);
    }
    CountsAgree(out);
  }

  lemma {:induction false} CountsAgree(out: seq<ScheduleRow>)
    requires forall i :: 0 <= i < |out| ==> (IsMissing(out[i]) <==> out[i].xgDiff.None?)
    ensures MissingCount(out) == UndefinedXgDiffCount(out)
  {
    if out != [] {
      assert forall i :: 0 <= i < |out[1..]| ==> out[1..][i] == out[i + 1];
      CountsAgree(out[1..]);
    }
  }

  /** Home ratio 0.5 against away ratio 0.3: xGDiff 2.5 - 1.38 = 1.12. */
  lemma XgDiffExample()
    ensures XgDiff(Some(0.5), Some(0.3)) == Some(1.12)
  {
  }

  /** On a loaded stats table, each schedule row carries the ratio and the
   *  percentage of the one stats row whose key is the team's join key, and
   *  neither when no stats row has that key. */
  lemma ScheduleRowUsesTeamStats(payload: Option<Stats.StatsPayload>,
                                 matches: seq<Fixtures.FixtureRow>, prematchOnly: bool, i: int)
    requires 0 <= i < |BuildScheduleWithMetrics(Stats.StatsOf(payload), matches, prematchOnly)|
    ensures var stats := Stats.StatsOf(payload);
      var r := BuildScheduleWithMetrics(stats, matches, prematchOnly)[i];
      (forall j :: 0 <= j < |stats| && stats[j].key == r.fixture.homeKey ==>
         r.homeMetric == stats[j].metric && r.homePct == stats[j].pct)
      && (forall j :: 0 <= j < |stats| && stats[j].key == r.fixture.awayKey ==>
         r.awayMetric == stats[j].metric && r.awayPct == stats[j].pct)
      && ((forall j :: 0 <= j < |stats| ==> stats[j].key != r.fixture.homeKey) ==>
         r.homeMetric.None? && r.homePct.None?)
      && ((forall j :: 0 <= j < |stats| ==> stats[j].key != r.fixture.awayKey) ==>
         r.awayMetric.None? && r.awayPct.None?)
  {
    var stats := Stats.StatsOf(payload);
    var r := BuildScheduleWithMetrics(stats, matches, prematchOnly)[i];
    ScheduleRowJoin(stats, matches, prematchOnly, i);
    LookupByUniqueKey(stats, r.fixture.homeKey);
    LookupByUniqueKey(stats, r.fixture.awayKey);
  }
}
