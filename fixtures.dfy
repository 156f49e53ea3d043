/**
 * `fetch_matches` (app.py): follows the `_next` cursor page by page,
 * accumulates the fixtures, builds one row per fixture and sorts the table by
 * (kickoff, matchWeek, matchId) with missing values last.
 */
module Fixtures {
  import opened Wrappers
  import opened Names
  import Http

  /** The competition every request asks for (the Premier League). */
  const Competition: string := "8"

  /** A fixture's `score` object when it is present and non-empty. */
  datatype Score = Score(home: Option<int>, away: Option<int>)

  /**
   * One entry of a page's `data`. `kickoff` is the instant the timestamp
   * parses to, `None` when it is missing or does not parse; `score` is `None`
   * when the object is missing, `null` or empty.
   */
  datatype Item = Item(
    matchId: Option<int>, matchWeek: Option<int>, period: Option<string>,
    kickoff: Option<int>, ground: Option<string>,
    homeName: Option<string>, awayName: Option<string>, score: Option<Score>)

  /** A decoded page: `{}`, or its `data` and its `pagination._next` cursor
   *  (`""` when the cursor is missing or empty). */
  datatype MatchesPayload = EmptyObject | Page(data: seq<Item>, next: string)

  /** The query parameters of one request; `next` is `_next`, absent on the first. */
  datatype Query = Query(competition: string, season: string, limit: nat, next: Option<string>)

  /** A row of the fixtures table. */
  datatype FixtureRow = FixtureRow(
    matchId: Option<int>, matchWeek: Option<int>, period: Option<string>,
    kickoff: Option<int>, ground: Option<string>,
    homeTeam: Option<string>, awayTeam: Option<string>,
    homeScore: Option<int>, awayScore: Option<int>,
    homeKey: string, awayKey: string)

  /** The row the second loop appends for one fixture: scores are copied
   *  exactly when a `score` object is present, and each team gets the join key
   *  of its name. */
  function RowOf(m: Item): (r: FixtureRow)
    ensures m.score.None? ==> r.homeScore.None? && r.awayScore.None?
    ensures m.score.Some? ==> r.homeScore == m.score.value.home && r.awayScore == m.score.value.away
    ensures r.homeKey == NormName(r.homeTeam) && r.awayKey == NormName(r.awayTeam)
    ensures r.homeTeam == m.homeName && r.awayTeam == m.awayName
    ensures r.matchId == m.matchId && r.matchWeek == m.matchWeek && r.ground == m.ground
    ensures r.period == m.period && r.kickoff == m.kickoff
  {
    var homeScore := if m.score.Some? then m.score.value.home else None;
    var awayScore := if m.score.Some? then m.score.value.away else None;
    FixtureRow(m.matchId, m.matchWeek, m.period, m.kickoff, m.ground,
               m.homeName, m.awayName, homeScore, awayScore,
               NormName(m.homeName), NormName(m.awayName))
  }

  /** The rows the second loop appends, one per fixture, in fetch order. */
  function RowsOf(items: seq<Item>): (rows: seq<FixtureRow>)
    ensures |rows| == |items|
    ensures forall i :: 0 <= i < |items| ==> rows[i] == RowOf(items[i])
  {
    seq(|items|, i requires 0 <= i < |items| => RowOf(items[i]))
  }

  // ---------------------------------------------------------------- sorting

  /** Ascending order on one sort column, missing values last. */
  predicate OptLess(a: Option<int>, b: Option<int>) {
    a.Some? && (b.None? || a.value < b.value)
  }

  /** Lexicographic order on (kickoff, matchWeek, matchId). */
  predicate KeyLess(x: FixtureRow, y: FixtureRow) {
    OptLess(x.kickoff, y.kickoff)
    || (x.kickoff == y.kickoff
        && (OptLess(x.matchWeek, y.matchWeek)
            || (x.matchWeek == y.matchWeek && OptLess(x.matchId, y.matchId))))
  }

  predicate KeyLe(x: FixtureRow, y: FixtureRow) {
    !KeyLess(y, x)
  }

  predicate Sorted(s: seq<FixtureRow>) {
    forall i, j :: 0 <= i < j < |s| ==> KeyLe(s[i], s[j])
  }

  /** `KeyLe` is a total preorder. */
  lemma KeyLeTotalPreorder(x: FixtureRow, y: FixtureRow, z: FixtureRow)
    ensures KeyLe(x, x)
    ensures KeyLe(x, y) || KeyLe(y, x)
    ensures KeyLe(x, y) && KeyLe(y, z) ==> KeyLe(x, z)
  {
  }

  /** Inserts `x` before the first row it does not follow. */
  function Insert(x: FixtureRow, s: seq<FixtureRow>): (r: seq<FixtureRow>)
    ensures multiset(r) == multiset(s) + multiset{x}
  {
    if s == [] then [x]
    else if KeyLe(x, s[0]) then [x] + s
    else
      assert s == [s[0]] + s[1..];
      [s[0]] + Insert(x, s[1..])
  }

  /** A row that precedes every row of a sorted table can head it. */
  lemma SortedCons(y: FixtureRow, t: seq<FixtureRow>)
    requires Sorted(t)
    requires forall j :: 0 <= j < |t| ==> KeyLe(y, t[j])
    ensures Sorted([y] + t)
  {
    var r := [y] + t;
    forall i, j | 0 <= i < j < |r| ensures KeyLe(r[i], r[j]) {
      if i > 0 {
        assert r[i] == t[i - 1] && r[j] == t[j - 1];
      } else {
        assert r[j] == t[j - 1];
      }
    }
  }

  lemma {:induction false} InsertSorted(x: FixtureRow, s: seq<FixtureRow>)
    requires Sorted(s)
    ensures Sorted(Insert(x, s))
  {
    if s == [] {
    } else if KeyLe(x, s[0]) {
      forall j | 0 <= j < |s| ensures KeyLe(x, s[j]) {
        KeyLeTotalPreorder(x, s[0], s[j]);
      }
      SortedCons(x, s);
    } else {
      var tail := s[1..];
      assert Sorted(tail) by {
        forall i, j | 0 <= i < j < |tail| ensures KeyLe(tail[i], tail[j]) {
          assert tail[i] == s[i + 1] && tail[j] == s[j + 1];
        }
      }
      InsertSorted(x, tail);
      var rest := Insert(x, tail);
      KeyLeTotalPreorder(x, s[0], x);
      forall j | 0 <= j < |rest| ensures KeyLe(s[0], rest[j]) {
        assert rest[j] in multiset(rest);
        if rest[j] != x {
          assert rest[j] in multiset(tail);
          var q :| 0 <= q < |tail| && tail[q] == rest[j];
          assert s[q + 1] == rest[j];
        }
      }
      SortedCons(s[0], rest);
    }
  }

  /** `sort_values(["kickoff_dt", "matchWeek", "matchId"], na_position="last")`. */
  function SortFixtures(s: seq<FixtureRow>): (r: seq<FixtureRow>)
    ensures Sorted(r)
    ensures multiset(r) == multiset(s)
  {
    if s == [] then []
    else
      assert s == [s[0]] + s[1..];
      var rest := SortFixtures(s[1..]);
      InsertSorted(s[0], rest);
      Insert(s[0], rest)
  }

  // ------------------------------------------------------------- pagination

  /** One sequence of attempt outcomes per request, in request order. */
  predicate WellFormed(net: seq<seq<Http.Attempt<MatchesPayload>>>) {
    forall k :: 0 <= k < |net| ==> Http.MaxAttempts <= |net[k]|
  }

  /** What `http_get` returns for the `k`-th request. */
  function PageAt(net: seq<seq<Http.Attempt<MatchesPayload>>>, k: nat): Option<MatchesPayload>
    requires WellFormed(net) && k < |net|
  {
    Http.Retry(net[k]).body
  }

  /** The loop ends on this page: it is `{}` (or the fetch failed), or it has
   *  no cursor. */
  predicate Stops(p: Option<MatchesPayload>) {
    p.None? || p.value.EmptyObject? || p.value.next == ""
  }

  function DataOf(p: Option<MatchesPayload>): seq<Item> {
    if p.Some? && p.value.Page? then p.value.data else []
  }

  function NextOf(p: Option<MatchesPayload>): string {
    if p.Some? && p.value.Page? then p.value.next else ""
  }

  /** The index of the first page at or after `k` that stops the loop, or
   *  `|net|` when there is none. */
  function FirstStop(net: seq<seq<Http.Attempt<MatchesPayload>>>, k: nat): (n: nat)
    requires WellFormed(net) && k <= |net|
    ensures k <= n <= |net|
    ensures n < |net| ==> Stops(PageAt(net, n))
    ensures forall j :: k <= j < n ==> !Stops(PageAt(net, j))
    decreases |net| - k
  {
    if k == |net| then |net|
    else if Stops(PageAt(net, k)) then k
    else FirstStop(net, k + 1)
  }

  /** The server ends the pagination within the modelled requests. */
  predicate Terminates(net: seq<seq<Http.Attempt<MatchesPayload>>>) {
    WellFormed(net) && FirstStop(net, 0) < |net|
  }

  /** The `data` of pages 0 .. n-1, concatenated in fetch order. */
  function PagesData(net: seq<seq<Http.Attempt<MatchesPayload>>>, n: nat): seq<Item>
    requires WellFormed(net) && n <= |net|
  {
    if n == 0 then [] else PagesData(net, n - 1) + DataOf(PageAt(net, n - 1))
  }

  /** The `_next` parameter of the `k`-th request: none on the first, the
   *  previous page's cursor on every later one. */
  function CursorAt(net: seq<seq<Http.Attempt<MatchesPayload>>>, k: nat): Option<string>
    requires WellFormed(net) && k <= |net|
  {
    if k == 0 then None else Some(NextOf(PageAt(net, k - 1)))
  }

  /** What fetching page `k` contributes: its data, its cursor, and whether
   *  it is the first stop. */
  lemma PageStep(net: seq<seq<Http.Attempt<MatchesPayload>>>, k: nat)
    requires WellFormed(net) && k < |net| && k <= FirstStop(net, 0)
    ensures PagesData(net, k + 1) == PagesData(net, k) + DataOf(PageAt(net, k))
    ensures CursorAt(net, k + 1) == Some(NextOf(PageAt(net, k)))
    ensures Stops(PageAt(net, k)) ==> k == FirstStop(net, 0)
    ensures !Stops(PageAt(net, k)) ==> k < FirstStop(net, 0)
  {
  }

  /** Sending request `k` with the cursor `CursorAt(net, k)` extends the
   *  queries of requests 0 .. k-1 to those of requests 0 .. k. */
  lemma QueriesStep(queries: seq<Query>, season: string, pageSize: nat,
                    net: seq<seq<Http.Attempt<MatchesPayload>>>, k: nat)
    requires WellFormed(net) && k < |net| && |queries| == k
    requires forall j :: 0 <= j < k ==> queries[j] == Query(Competition, season, pageSize, CursorAt(net, j))
    ensures var qs := queries + [Query(Competition, season, pageSize, CursorAt(net, k))];
      forall j :: 0 <= j < k + 1 ==> qs[j] == Query(Competition, season, pageSize, CursorAt(net, j))
  {
  }

  /**
   * The `while True` loop of `fetch_matches`: the fixtures it accumulates and
   * the queries it sends.
   */
  method FetchPages(season: string, pageSize: nat, net: seq<seq<Http.Attempt<MatchesPayload>>>)
    returns (items: seq<Item>, queries: seq<Query>)
    requires Terminates(net)
    ensures |queries| == FirstStop(net, 0) + 1
    ensures forall k :: 0 <= k < |queries| ==>
      queries[k] == Query(Competition, season, pageSize, CursorAt(net, k))
    ensures items == PagesData(net, |queries|)
  {
    items := [];
    var next: Option<string> := None;
    var k := 0;
    queries := [];
    while true
      invariant k <= FirstStop(net, 0) < |net|
      invariant |queries| == k
      invariant forall j :: 0 <= j < k ==> queries[j] == Query(Competition, season, pageSize, CursorAt(net, j))
      invariant next == CursorAt(net, k)
      invariant items == PagesData(net, k)
      decreases |net| - k
    {
      QueriesStep(queries, season, pageSize, net, k);
      queries := queries + [Query(Competition, season, pageSize, next)];
      var payload, _, _, _ := Http.HttpGet(net[k]);
      PageStep(net, k);
      assert payload == PageAt(net, k);
      if payload.None? || payload.value.EmptyObject? {
        return;
      }
      items := items + payload.value.data;
      if payload.value.next == "" {
        return;
      }
      next := Some(payload.value.next);
      k := k + 1;
    }
  }

  /** `fetch_matches`: the pagination loop, the loop building one row per
   *  fixture, then the sort. Returns the table and the queries it sent. */
  method FetchMatches(season: string, pageSize: nat, net: seq<seq<Http.Attempt<MatchesPayload>>>)
    returns (rows: seq<FixtureRow>, queries: seq<Query>)
    requires Terminates(net)
    ensures |queries| == FirstStop(net, 0) + 1
    ensures forall k :: 0 <= k < |queries| ==>
      queries[k] == Query(Competition, season, pageSize, CursorAt(net, k))
    ensures Sorted(rows)
    ensures multiset(rows) == multiset(RowsOf(PagesData(net, |queries|)))
    ensures rows == SortFixtures(RowsOf(PagesData(net, |queries|)))
  {
    var items;
    items, queries := FetchPages(season, pageSize, net);
    var built: seq<FixtureRow> := [];
    for i := 0 to |items|
      invariant |built| == i
      invariant forall j :: 0 <= j < i ==> built[j] == RowOf(items[j])
    {
      built := built + [RowOf(items[i])];
    }
    assert built == RowsOf(items);
    rows := SortFixtures(built);
  }

  /** Every follow-up request carries the previous page's cursor, and that
   *  cursor is non-empty. */
  lemma FollowUpCarriesCursor(net: seq<seq<Http.Attempt<MatchesPayload>>>, k: nat)
    requires Terminates(net) && 0 < k <= FirstStop(net, 0)
    ensures CursorAt(net, k) == Some(PageAt(net, k - 1).value.next)
    ensures PageAt(net, k - 1).value.Page? && PageAt(net, k - 1).value.next != ""
  {
  }

  /** A first page without a cursor is the only page fetched. */
  lemma NoCursorMeansOnePage(net: seq<seq<Http.Attempt<MatchesPayload>>>, data: seq<Item>)
    requires WellFormed(net) && |net| > 0
    requires PageAt(net, 0) == Some(Page(data, ""))
    ensures Terminates(net) && FirstStop(net, 0) == 0
    ensures PagesData(net, FirstStop(net, 0) + 1) == data
  {
    assert PagesData(net, 1) == [] + data;
  }

  /** A failed or empty page ends the pagination and contributes nothing, while
   *  the pages before it are kept. */
  lemma EmptyPageEndsEarly(net: seq<seq<Http.Attempt<MatchesPayload>>>, k: nat)
    requires Terminates(net) && k == FirstStop(net, 0)
    requires PageAt(net, k).None? || PageAt(net, k).value.EmptyObject?
    ensures PagesData(net, k + 1) == PagesData(net, k)
  {
  }

  /** Each row of the table is the row of one fetched fixture. */
  lemma {:induction false} SortedRowComesFromItem(items: seq<Item>, r: FixtureRow)
    requires r in SortFixtures(RowsOf(items))
    ensures exists i :: 0 <= i < |items| && r == RowOf(items[i])
  {
    var rows := RowsOf(items);
    assert r in multiset(SortFixtures(rows));
    assert r in multiset(rows);
    var i :| 0 <= i < |rows| && rows[i] == r;
  }

  /** In the sorted table every row without a kickoff comes after every row
   *  with one. */
  lemma MissingKickoffSortsLast(s: seq<FixtureRow>)
    ensures var r := SortFixtures(s);
      forall i, j :: 0 <= i < |r| && 0 <= j < |r| && r[i].kickoff.None? && r[j].kickoff.Some? ==> j < i
  {
    var r := SortFixtures(s);
    forall i, j | 0 <= i < |r| && 0 <= j < |r| && r[i].kickoff.None? && r[j].kickoff.Some?
      ensures j < i
    {
      SortedMissingLast(r, i, j);
    }
  }

  lemma SortedMissingLast(r: seq<FixtureRow>, i: int, j: int)
    requires Sorted(r) && 0 <= i < |r| && 0 <= j < |r|
    requires r[i].kickoff.None? && r[j].kickoff.Some?
    ensures j < i
  {
    assert KeyLess(r[j], r[i]);
  }
}
