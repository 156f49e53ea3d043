/**
 * `fetch_stats` (app.py): one request for the season's team leaderboard, one
 * row per team with its shot-quality ratio, then de-duplication on the
 * normalised name keeping the first row of each key.
 */
module Stats {
  import opened Wrappers
  import opened Names
  import opened Seqs
  import Http

  /** One entry of the leaderboard's `data`; absent counters read as 0. */
  datatype StatEntry = StatEntry(
    teamName: Option<string>,
    shotsOnTargetIncGoals: Option<real>,
    shotsConcededInsideBox: Option<real>,
    shotsConcededOutsideBox: Option<real>)

  /** A decoded response body: `{}` or an object with the leaderboard's `data`. */
  datatype StatsPayload = EmptyObject | Leaderboard(data: seq<StatEntry>)

  /** A row of the stats table: `team`, `team_norm`, `metric`, `metric_%`. */
  datatype StatRow = StatRow(team: Option<string>, key: string, metric: Option<real>, pct: Option<real>)

  /** `sot / (sot + cin + cout)`, undefined (NaN) unless the denominator is positive. */
  function ShotQuality(sot: real, cin: real, cout: real): (m: Option<real>)
    ensures m.Some? <==> sot + cin + cout > 0.0
    ensures m.Some? ==> m.value * (sot + cin + cout) == sot
  {
    var denom := sot + cin + cout;
    if denom > 0.0 then Some(sot / denom) else None
  }

  /** `metric_%`: the ratio as a percentage, absent exactly when the ratio is. */
  function Percent(m: Option<real>): (p: Option<real>)
    ensures p.Some? <==> m.Some?
    ensures p.Some? ==> p.value / 100.0 == m.value
  {
    if m.Some? then Some(m.value * 100.0) else None
  }

  /** The row the loop appends for one leaderboard entry. */
  function RowOf(e: StatEntry): (r: StatRow)
    ensures r.team == e.teamName && r.key == NormName(e.teamName)
    ensures r.metric.Some? <==> e.shotsOnTargetIncGoals.GetOr(0.0) + e.shotsConcededInsideBox.GetOr(0.0)
                                + e.shotsConcededOutsideBox.GetOr(0.0) > 0.0
    ensures r.metric.Some? ==> r.metric.value * (e.shotsOnTargetIncGoals.GetOr(0.0) + e.shotsConcededInsideBox.GetOr(0.0)
                                                 + e.shotsConcededOutsideBox.GetOr(0.0))
                               == e.shotsOnTargetIncGoals.GetOr(0.0)
    ensures r.pct == Percent(r.metric)
  {
    var metric := ShotQuality(e.shotsOnTargetIncGoals.GetOr(0.0),
                              e.shotsConcededInsideBox.GetOr(0.0),
                              e.shotsConcededOutsideBox.GetOr(0.0));
    StatRow(e.teamName, NormName(e.teamName), metric, Percent(metric))
  }

  /** The rows the loop appends, one per leaderboard entry, in order. */
  function RowsOf(data: seq<StatEntry>): (rows: seq<StatRow>)
    ensures |rows| == |data|
    ensures forall i :: 0 <= i < |data| ==> rows[i] == RowOf(data[i])
  {
    seq(|data|, i requires 0 <= i < |data| => RowOf(data[i]))
  }

  function KeySet(rows: seq<StatRow>): set<string> {
    set i | 0 <= i < |rows| :: rows[i].key
  }

  lemma KeySetCons(x: StatRow, rest: seq<StatRow>)
    ensures KeySet([x] + rest) == {x.key} + KeySet(rest)
  {
    var s := [x] + rest;
    forall k | k in KeySet(rest) ensures k in KeySet(s) {
      var i :| 0 <= i < |rest| && rest[i].key == k;
      assert s[i + 1] == rest[i];
    }
    assert s[0] == x;
  }

  /** No earlier row has the key of row `p`. */
  predicate FirstOccurrence(rows: seq<StatRow>, p: int)
    requires 0 <= p < |rows|
  {
    forall q :: 0 <= q < p ==> rows[q].key != rows[p].key
  }

  /** Every row of `r` is the first row of `rows` with its key. */
  ghost predicate KeptFirst(r: seq<StatRow>, rows: seq<StatRow>) {
    forall i :: 0 <= i < |r| ==>
      exists p :: 0 <= p < |rows| && r[i] == rows[p] && FirstOccurrence(rows, p)
  }

  /** `drop_duplicates(subset=["team_norm"])` after the keys in `seen` were taken. */
  function DedupFrom(rows: seq<StatRow>, seen: set<string>): (r: seq<StatRow>)
    ensures forall i :: 0 <= i < |r| ==> r[i] in rows && r[i].key !in seen
    ensures forall i, j :: 0 <= i < j < |r| ==> r[i].key != r[j].key
    ensures KeySet(r) == KeySet(rows) - seen
  {
    if rows == [] then []
    else
      assert rows == [rows[0]] + rows[1..];
      KeySetCons(rows[0], rows[1..]);
      if rows[0].key in seen then DedupFrom(rows[1..], seen)
      else
        var rest := DedupFrom(rows[1..], seen + {rows[0].key});
        KeySetCons(rows[0], rest);
        [rows[0]] + rest
  }

  /** `drop_duplicates(subset=["team_norm"])`, keeping the first row of each key.
   *  The preceding `dropna` removes nothing: a key is never missing. */
  function DedupFirst(rows: seq<StatRow>): (r: seq<StatRow>)
    ensures forall i :: 0 <= i < |r| ==> r[i] in rows
    ensures forall i, j :: 0 <= i < j < |r| ==> r[i].key != r[j].key
    ensures KeySet(r) == KeySet(rows)
  {
    assert KeySet(rows) - {} == KeySet(rows);
    DedupFrom(rows, {})
  }

  /** The rows at positions `0 .. n-1` that are the first of their key, in
   *  position order: keep-first de-duplication stated by position. */
  function FirstRowsUpTo(rows: seq<StatRow>, n: nat): seq<StatRow>
    requires n <= |rows|
  {
    if n == 0 then []
    else FirstRowsUpTo(rows, n - 1) + (if FirstOccurrence(rows, n - 1) then [rows[n - 1]] else [])
  }

  /** Taking one more row into the prefix adds its key, which was new exactly
   *  when the row is the first of its key. */
  lemma KeySetPrefixStep(rows: seq<StatRow>, n: nat)
    requires n < |rows|
    ensures KeySet(rows[..n + 1]) == KeySet(rows[..n]) + {rows[n].key}
    ensures rows[n].key in KeySet(rows[..n]) <==> !FirstOccurrence(rows, n)
  {
    assert rows[..n + 1] == rows[..n] + [rows[n]];
    assert rows[..n + 1][n] == rows[n];
    forall k | k in KeySet(rows[..n]) ensures k in KeySet(rows[..n + 1]) {
      var q :| 0 <= q < n && rows[..n][q].key == k;
      assert rows[..n + 1][q] == rows[..n][q];
    }
    if !FirstOccurrence(rows, n) {
      var q :| 0 <= q < n && rows[q].key == rows[n].key;
      assert rows[..n][q] == rows[q];
    }
  }

  /** De-duplicating from position `m` against the keys before it: row `m`
   *  is kept exactly when it is the first of its key. */
  lemma DedupFromStep(rows: seq<StatRow>, m: nat)
    requires m < |rows|
    ensures DedupFrom(rows[m..], KeySet(rows[..m]))
      == (if FirstOccurrence(rows, m) then [rows[m]] else [])
         + DedupFrom(rows[m + 1..], KeySet(rows[..m + 1]))
  {
    KeySetPrefixStep(rows, m);
    var t, seen := rows[m..], KeySet(rows[..m]);
    assert t[0] == rows[m];
    assert t[1..] == rows[m + 1..];
    if FirstOccurrence(rows, m) {
      assert rows[m].key !in seen;
      assert seen + {rows[m].key} == KeySet(rows[..m + 1]);
      assert DedupFrom(t, seen) == [rows[m]] + DedupFrom(rows[m + 1..], seen + {rows[m].key});
    } else {
      assert rows[m].key in seen;
      assert seen == KeySet(rows[..m + 1]);
      assert DedupFrom(t, seen) == DedupFrom(rows[m + 1..], seen);
    }
  }

  lemma DedupFromSplitsBase(rows: seq<StatRow>)
    ensures FirstRowsUpTo(rows, 0) + DedupFrom(rows[0..], KeySet(rows[..0])) == DedupFrom(rows, {})
  {
    assert rows[0..] == rows;
    assert KeySet(rows[..0]) == {} by {
      assert rows[..0] == [];
    }
  }

  /** `head + mid` with `mid` split into `kept + rest` is `(head + kept) + rest`. */
  lemma RegroupConcat(head: seq<StatRow>, kept: seq<StatRow>, mid: seq<StatRow>,
                      rest: seq<StatRow>, whole: seq<StatRow>)
    requires head + mid == whole && mid == kept + rest
    ensures (head + kept) + rest == whole
  {
    assert head + (kept + rest) == (head + kept) + rest;
  }

  /** The split after `n - 1` rows carries over to the split after `n`. */
  lemma DedupFromSplitsStep(rows: seq<StatRow>, n: nat)
    requires 0 < n <= |rows|
    requires FirstRowsUpTo(rows, n - 1) + DedupFrom(rows[n - 1..], KeySet(rows[..n - 1])) == DedupFrom(rows, {})
    ensures FirstRowsUpTo(rows, n) + DedupFrom(rows[n..], KeySet(rows[..n])) == DedupFrom(rows, {})
  {
    var m := n - 1;
    var head := FirstRowsUpTo(rows, m);
    var kept := if FirstOccurrence(rows, m) then [rows[m]] else [];
    var mid := DedupFrom(rows[m..], KeySet(rows[..m]));
    var rest := DedupFrom(rows[n..], KeySet(rows[..n]));
    DedupFromStep(rows, m);
    RegroupConcat(head, kept, mid, rest, DedupFrom(rows, {}));
  }

  /** Splitting the input after `n` rows: the first `n` positions contribute
   *  their first-of-key rows, the rest is de-duplicated against their keys. */
  lemma {:induction false} DedupFromSplits(rows: seq<StatRow>, n: nat)
    requires n <= |rows|
    ensures FirstRowsUpTo(rows, n) + DedupFrom(rows[n..], KeySet(rows[..n])) == DedupFrom(rows, {})
    decreases n
  {
    if n == 0 {
      DedupFromSplitsBase(rows);
    } else {
      DedupFromSplits(rows, n - 1);
      DedupFromSplitsStep(rows, n);
    }
  }

  /** De-duplication keeps exactly the rows at first-of-key positions, in
   *  ascending position order. */
  lemma DedupFirstByPosition(rows: seq<StatRow>)
    ensures DedupFirst(rows) == FirstRowsUpTo(rows, |rows|)
  {
    DedupFromSplits(rows, |rows|);
    assert rows[|rows|..] == [];
  }

  lemma {:induction false} DedupFromKeepsFirst(rows: seq<StatRow>, seen: set<string>)
    ensures Subsequence(DedupFrom(rows, seen), rows)
    ensures KeptFirst(DedupFrom(rows, seen), rows)
  {
    if rows != [] {
      var k := rows[0].key;
      var seen' := if k in seen then seen else seen + {k};
      DedupFromKeepsFirst(rows[1..], seen');
      var tail := rows[1..];
      var rest := DedupFrom(tail, seen');
      assert KeptFirst(rest, tail);
      forall i | 0 <= i < |rest|
        ensures exists p :: 0 <= p < |rows| && rest[i] == rows[p] && FirstOccurrence(rows, p)
      {
        var p' :| 0 <= p' < |tail| && rest[i] == tail[p'] && FirstOccurrence(tail, p');
        assert rest[i].key != k;
        assert rows[p' + 1] == tail[p'];
        assert FirstOccurrence(rows, p' + 1);
      }
      var r := DedupFrom(rows, seen);
      if k !in seen {
        assert FirstOccurrence(rows, 0);
        assert r == [rows[0]] + rest;
        assert r[1..] == rest;
        assert r[0] == rows[0];
      } else {
        assert r == rest;
      }
    }
  }

  /**
   * De-duplication keeps exactly one row per key (the keys of the result are
   * distinct and are all the keys of the input), keeps the first row of each
   * key, and keeps the input's relative order: it is exactly the subsequence
   * of rows at first-of-key positions.
   */
  lemma DedupFirstSpec(rows: seq<StatRow>)
    ensures var r := DedupFirst(rows);
      (forall i, j :: 0 <= i < j < |r| ==> r[i].key != r[j].key)
      && KeySet(r) == KeySet(rows)
      && Subsequence(r, rows)
      && KeptFirst(r, rows)
      && r == FirstRowsUpTo(rows, |rows|)
  {
    DedupFromKeepsFirst(rows, {});
    DedupFirstByPosition(rows);
    assert KeySet(rows) - {} == KeySet(rows);
  }

  /** A row whose name normalises to the empty key is not dropped: the first of
   *  them survives. */
  lemma EmptyKeySurvives(rows: seq<StatRow>, i: int)
    requires 0 <= i < |rows| && rows[i].key == ""
    ensures exists j :: 0 <= j < |DedupFirst(rows)| && DedupFirst(rows)[j].key == ""
  {
    var r := DedupFirst(rows);
    assert "" in KeySet(rows);
    assert KeySet(rows) - {} == KeySet(rows);
    assert "" in KeySet(r);
  }

  /** The stats table `fetch_stats` returns for a decoded body; `{}` and a failed
   *  fetch give the empty table. */
  function StatsOf(payload: Option<StatsPayload>): (r: seq<StatRow>)
    ensures payload.None? || payload.value.EmptyObject? ==> r == []
    ensures payload.Some? && payload.value.Leaderboard? ==>
      forall i :: 0 <= i < |r| ==> r[i] in RowsOf(payload.value.data)
    ensures payload.Some? && payload.value.Leaderboard? ==>
      KeySet(r) == KeySet(RowsOf(payload.value.data))
      && r == FirstRowsUpTo(RowsOf(payload.value.data), |payload.value.data|)
    ensures forall i, j :: 0 <= i < j < |r| ==> r[i].key != r[j].key
  {
    match payload
    case None => []
    case Some(EmptyObject) => []
    case Some(Leaderboard(data)) =>
      DedupFirstByPosition(RowsOf(data));
      DedupFirst(RowsOf(data))
  }

  /** `fetch_stats`: fetch with retries, build the rows in a loop, de-duplicate. */
  method FetchStats(outcomes: seq<Http.Attempt<StatsPayload>>) returns (rows: seq<StatRow>)
    requires Http.MaxAttempts <= |outcomes|
    ensures rows == StatsOf(Http.Retry(outcomes).body)
  {
    var payload, _, _, _ := Http.HttpGet(outcomes);
    if payload.None? || payload.value.EmptyObject? {
      return [];
    }
    var data := payload.value.data;
    var built: seq<StatRow> := [];
    for i := 0 to |data|
      invariant |built| == i
      invariant forall k :: 0 <= k < i ==> built[k] == RowOf(data[k])
    {
      built := built + [RowOf(data[i])];
    }
    assert built == RowsOf(data);
    rows := DedupFirst(built);
  }

  /** With non-negative counters the ratio lies in [0, 1]. */
  lemma ShotQualityInUnitInterval(sot: real, cin: real, cout: real)
    requires sot >= 0.0 && cin >= 0.0 && cout >= 0.0
    ensures var m := ShotQuality(sot, cin, cout);
      m.Some? ==> 0.0 <= m.value <= 1.0 && 0.0 <= Percent(m).value <= 100.0
  {
    var m := ShotQuality(sot, cin, cout);
    if m.Some? {
      var d := sot + cin + cout;
      var x := m.value;
      assert x * d == sot;
    }
  }

  /** Every row carries a percentage exactly when it carries a ratio. */
  predicate PctMatchesMetric(rows: seq<StatRow>) {
    forall i :: 0 <= i < |rows| ==>
      (rows[i].pct.Some? <==> rows[i].metric.Some?)
      && (rows[i].pct.Some? ==> rows[i].pct.value == rows[i].metric.value * 100.0)
  }

  lemma StatsOfPctMatchesMetric(payload: Option<StatsPayload>)
    ensures PctMatchesMetric(StatsOf(payload))
  {
    if payload.Some? && payload.value.Leaderboard? {
      var data := payload.value.data;
      var rows := RowsOf(data);
      var r := StatsOf(payload);
      forall i | 0 <= i < |r|
        ensures (r[i].pct.Some? <==> r[i].metric.Some?)
        ensures (r[i].pct.Some? ==> r[i].pct.value == r[i].metric.value * 100.0)
      {
        assert r[i] in rows;
        var p :| 0 <= p < |rows| && rows[p] == r[i];
        assert r[i] == RowOf(data[p]);
      }
    }
  }

  /** 10 shots on target against 5 + 5 conceded: ratio 0.5, i.e. 50 %. */
  lemma HalfExample()
    ensures ShotQuality(10.0, 5.0, 5.0) == Some(0.5)
    ensures Percent(ShotQuality(10.0, 5.0, 5.0)) == Some(50.0)
  {
  }

  /** All three counters zero: the ratio and the percentage are undefined. */
  lemma ZeroCountersUndefined(e: StatEntry)
    requires e.shotsOnTargetIncGoals.GetOr(0.0) == 0.0
    requires e.shotsConcededInsideBox.GetOr(0.0) == 0.0
    requires e.shotsConcededOutsideBox.GetOr(0.0) == 0.0
    ensures RowOf(e).metric == None && RowOf(e).pct == None
  {
  }
}
