# Premier League fixtures dashboard: the data pipeline, in Dafny

This project models the data pipeline under the Streamlit dashboard `app.py`:
fetch team statistics and paginated fixtures from the Premier League API with
a retrying GET, normalise team names into join keys, join every fixture to
the two teams' shot-quality ratios, derive the xGDiff score, and count the
fixtures whose statistics are missing. The UI does not appear in the model.
The network shows up only as values. A request's outcome is a status code with
a body that decodes or fails to decode, or an exception. A sleep becomes a
recorded delay.

Modules, one per component:

- `Wrappers` (`wrappers.dfy`) — `Option`, standing for Python's `None` and
  pandas' NaN.
- `Seqs` (`seqs.dfy`) — the order-preserving subsequence relation, shared by
  the name normaliser, the stats loader and the schedule.
- `Http` (`http.dfy`) — `http_get`'s retry loop (`HttpGet`), proved against
  the function `Retry`, and the lemmas that pin `Retry` down case by case.
- `Names` (`names.dfy`) — `norm_name`.
- `Badges` (`badges.dfy`) — `get_team_ids_mapping` and `get_team_logo_url`.
- `Stats` (`stats.dfy`) — `fetch_stats`: the ratio, its percentage, the row
  loop and first-wins de-duplication.
- `Fixtures` (`fixtures.dfy`) — `fetch_matches`: the cursor loop
  (`FetchPages`), the row loop, and the nulls-last sort, modelled as an
  insertion sort.
- `Schedule` (`schedule.dfy`) — `build_schedule_with_metrics` and the
  "Missing Stats" count.

Modelling choices:

- The network gives one sequence of attempt outcomes per request.
  `HttpGet` needs five of them, one for each attempt it might make.
  `FetchMatches` takes one such sequence per page request. It requires that
  some page ends the pagination (`Terminates`).
- A decoded body of `{}` is the constructor `EmptyObject`. The `{}` that
  `http_get` returns on failure is `None`. Callers treat both as "no payload",
  as `if not payload` does.
- A 200 response whose body does not decode makes `r.json()` raise inside the
  `try`. It is therefore handled like a network exception: sleep and retry, or
  give up on the fifth attempt.
- Kickoff is the parsed instant (`Option<int>`), `None` when the timestamp is
  missing or does not parse. `matchId` and `matchWeek` are `Option<int>`.
- The ratios are `real`. `None` stands for NaN.

Behaviour of the code worth noting:

- Rows whose name normalises to the empty key are not dropped. `dropna` at
  app.py:92 removes nothing, because `norm_name` never returns `None`. The
  first such row survives de-duplication (`Stats.EmptyKeySurvives`).
- When five retryable statuses exhaust the loop, `http_get` returns `{}`
  without an error message (app.py:55). The model records `reported == false`
  (`Http.ExhaustedRetries`). That lemma also shows that the code sleeps a
  fifth time, eight seconds, after the last attempt, before giving up.
- A name missing from the badge table gets Arsenal's badge (id `"1"`), not a
  neutral placeholder (`Badges.UnknownTeamShowsArsenalBadge`).

## Model

| member | source | states |
|---|---|---|
| `Http.Backoff` | app.py:42 | the delay after attempt i is min(2^i, 8): between 1 and 8 seconds, equal to 2^i or to the ceiling |
| `Http.HttpGet` | app.py:34-55 | the counted loop with its early returns produces exactly the body, delays, attempt count and error flag that `Retry` describes |
| `Http.Retry` | app.py:34-55 | a call makes 1 to 5 requests, and a returned body never comes with an error message; the lemmas below pin it down case by case |
| `Http.RetryBounds` | app.py:36-55 | every call makes 1 to 5 requests, sleeps once per request or one fewer, and sleeps min(2^j, 8) after attempt j |
| `Http.ReturnsFirstSuccess` | app.py:39-40 | after k transient failures, a 200 with a decodable body is returned as is, after k requests' sleeps and with no error message |
| `Http.StopsOnTerminalStatus` | app.py:41-49 | a status that is neither 200 nor 429/500/502/503/504 ends the call at once with `{}` and an error message |
| `Http.ExceptionOnLastAttempt` | app.py:50-53 | an exception on the fifth attempt returns `{}` with an error message and does not sleep a fifth time |
| `Http.ExhaustedRetries` | app.py:41-43 | five retryable statuses: sleeps of 1, 2, 4, 8 and 8 seconds, then `{}` with no error message |
| `Http.BodyOnlyFromFirstSuccess` | app.py:36-55 | a returned body always comes from a 200 whose body decoded, and every earlier attempt failed transiently |
| `Http.TwoServerErrorsThenSuccess` | app.py:39-43 | responses 500, 500, 200 give the 200 body after exactly two sleeps, of 1 s and 2 s |
| `Names.Lower` | app.py:62 | lower-casing keeps the length and lower-cases each character (ASCII letters) in place |
| `Names.StripNonKey` | app.py:61-62 | the regex substitution leaves only characters in [a-z0-9] and never lengthens the string |
| `Names.NormName` | app.py:57-62 | every key character is in [a-z0-9]; a missing or empty name gives "" |
| `Names.StripNonKeyKeepsKeyChars` | app.py:61-62 | stripping keeps each [a-z0-9] character as often as it occurs, in order, and drops everything else |
| `Names.StripNonKeyFixpoint` | app.py:61-62 | stripping leaves a string unchanged exactly when it consists of key characters only |
| `Names.NormNameIdempotent` | app.py:57-62 | normalising a key gives the same key |
| `Names.NormNameCharacterisation` | app.py:57-62 | the key is the lower-cased name with the non-key characters deleted, order and multiplicities kept |
| `Names.NormNameIgnoresCase` | app.py:62 | names that differ only in letter case have the same key |
| `Names.NormNameIgnoresSeparators` | app.py:61-62 | a separator without key characters between two parts contributes nothing to the key |
| `Badges.TeamIds` | app.py:163-194 | the source's 29 display names and their badge ids; `ShortNamesShareBadge`, `LondonShortNamesShareBadge` and `ManchesterShortNamesShareBadge` state how the aliases share ids |
| `Badges.TeamId` | app.py:199 | a name in the table gets its id; a missing or unknown name gets "1" |
| `Badges.LogoUrl` | app.py:197-200 | the URL is the badge prefix, then the team's id, then `.svg`; `BadgeIdOfLogoUrl` reads the id back out |
| `Badges.ShortNamesShareBadge` | app.py:165-188 | in the ids table, "AFC Bournemouth", "Brighton" and "Wolves" have the id of the club's full name |
| `Badges.LondonShortNamesShareBadge` | app.py:183-193 | "Tottenham" and "Spurs" have Tottenham Hotspur's id, and "West Ham" has West Ham United's |
| `Badges.ManchesterShortNamesShareBadge` | app.py:178-192 | "Man City" has Manchester City's id, "Man United" and "Man Utd" have Manchester United's, and the two clubs' ids differ |
| `Badges.BadgeIdOfLogoUrl` | app.py:22 | the team id can be read back out of every badge URL |
| `Badges.LogoUrlSameExactlyForSameId` | app.py:197-200 | two names get the same badge URL exactly when the table gives them the same id |
| `Badges.UnknownTeamShowsArsenalBadge` | app.py:163-199 | the URL of a name the table does not know is Arsenal's |
| `Stats.ShotQuality` | app.py:81-82 | the ratio is defined exactly when sot + cin + cout > 0, and then it times the denominator equals sot |
| `Stats.Percent` | app.py:87 | the percentage is absent exactly when the ratio is, and otherwise it is the ratio times 100 |
| `Stats.ShotQualityInUnitInterval` | app.py:78-87 | with non-negative counters the ratio is in [0, 1] and the percentage is in [0, 100] |
| `Stats.HalfExample` | app.py:81-87 | 10 shots on target against 5 + 5 conceded give 0.5, that is 50 % |
| `Stats.ZeroCountersUndefined` | app.py:78-82 | when all three counters are absent or zero, the ratio and the percentage are undefined |
| `Stats.DedupFrom` | app.py:92 | the kept rows have pairwise distinct keys, none of them already seen, and together they cover every unseen key of the input |
| `Stats.DedupFirstSpec` | app.py:92 | de-duplication keeps one row per key, keeps every key, keeps the first row of each key, and preserves relative order; by position, it is exactly the rows at first-of-key positions in ascending order |
| `Stats.DedupFirstByPosition` | app.py:92 | the de-duplicated table equals the position filter `FirstRowsUpTo`: the rows with no earlier row of the same key, in their original order |
| `Stats.DedupFirst` | app.py:92 | every kept row comes from the input, the kept keys are pairwise distinct, and every key of the input is kept |
| `Stats.RowOf` | app.py:75-87 | a row keeps the team's name, its key is `NormName` of the name, its ratio is defined exactly when the three counters (absent read as 0) sum to more than 0, and then it times that sum equals the shots on target, i.e. it is sot / (sot + cin + cout); its percentage is that ratio's |
| `Stats.RowsOf` | app.py:74-88 | the loop appends one row per leaderboard entry, in order: row i is `RowOf` of entry i |
| `Stats.StatsOf` | app.py:64-93 | a failed or `{}` fetch gives the empty table; otherwise every row is the row of some leaderboard entry, no two rows share a key, every key of the leaderboard is kept, and the table is exactly the first row of each key in leaderboard order (`FirstRowsUpTo`) |
| `Stats.EmptyKeySurvives` | app.py:92 | a row whose key is "" is not dropped: one such row remains |
| `Stats.FetchStats` | app.py:64-93 | a failed or `{}` fetch gives the empty table; otherwise the rows are built in a loop and de-duplicated, as `StatsOf` states |
| `Stats.StatsOfPctMatchesMetric` | app.py:82-92 | in every loaded table, a row has a percentage exactly when it has a ratio, and the percentage is the ratio times 100 |
| `Fixtures.RowOf` | app.py:116-135 | a fixture row copies the fixture's matchId, matchWeek, period, kickoff, ground and team names; without a `score` object it has no scores, and with one its scores are that object's home and away values, each possibly missing; each team's join key is `NormName` of its name |
| `Fixtures.RowsOf` | app.py:111-135 | the loop appends one row per fetched fixture, in fetch order: row i is `RowOf` of fixture i |
| `Fixtures.KeyLeTotalPreorder` | app.py:139-140 | the order on (kickoff, matchWeek, matchId), with missing values last, is reflexive, total and transitive |
| `Fixtures.Insert` | app.py:140 | insertion adds exactly the one row to the table and removes nothing |
| `Fixtures.InsertSorted` | app.py:140 | inserting into a sorted table keeps it sorted |
| `Fixtures.SortFixtures` | app.py:139-140 | the sorted table is ascending by (kickoff, matchWeek, matchId), missing values last, and is a permutation of the input |
| `Fixtures.FirstStop` | app.py:101-108 | the loop stops at the first page that failed, is `{}`, or has no `_next`; every page before it continues the loop |
| `Fixtures.FetchPages` | app.py:98-109 | one request per page up to the first stopping page; the first request has no `_next`, each later one carries the previous page's cursor; the items are the pages' data concatenated in fetch order |
| `Fixtures.FetchMatches` | app.py:95-141 | the same queries as `FetchPages`; the table is a sorted permutation of the rows of the fetched fixtures |
| `Fixtures.FollowUpCarriesCursor` | app.py:106-109 | every follow-up request carries the previous page's cursor, which is non-empty |
| `Fixtures.NoCursorMeansOnePage` | app.py:106-108 | a first page without `_next` is the only page fetched, and its data are all the items |
| `Fixtures.EmptyPageEndsEarly` | app.py:102-104 | a failed or `{}` page ends the pagination and adds nothing; the earlier pages' items are kept |
| `Fixtures.SortedRowComesFromItem` | app.py:111-140 | every row of the sorted table is the row of one fetched fixture |
| `Fixtures.MissingKickoffSortsLast` | app.py:139-140 | in the sorted table, every row whose kickoff is missing or does not parse comes after every row with a kickoff |
| `Schedule.Zip` | app.py:291-292 | every key of the input is in the dict, only those, and each maps to the value at its last position |
| `Schedule.ZipLastPosition` | app.py:291-292 | every key in the dict has a last position in the key column |
| `Schedule.SelectPreMatch` | app.py:287-288 | the filter keeps only PreMatch fixtures, each with its original multiplicity |
| `Schedule.XgDiff` | app.py:301 | xGDiff is defined exactly when both metrics are |
| `Schedule.MissingCount` | app.py:397 | the count is at most the number of rows; it is 0 exactly when no row misses a percentage, and equals the row count exactly when every row does |
| `Schedule.NoFixturesNoSchedule` | app.py:284-285 | no fixtures give an empty schedule |
| `Schedule.ScheduleFixtures` | app.py:287-294 | without the filter, the schedule lists every fixture in order; with it, exactly the PreMatch fixtures, as an order-preserving subsequence |
| `Schedule.LookupByUniqueKey` | app.py:291-298 | with unique stats keys, a team's ratio and percentage are its stats row's; a team without a stats row has neither |
| `Schedule.PctDefinedIffMetric` | app.py:291-298 | when the stats agree on which rows have a ratio, a team's percentage resolves exactly when its ratio does |
| `Schedule.ScheduleRowJoin` | app.py:294-301 | each row looks up both teams by normalised key; xGDiff is 5.0 * home - 4.6 * away, defined exactly when both ratios resolve |
| `Schedule.MissingCountIsRowsMissing` | app.py:397 | the missing-stats figure is exactly the number of rows whose home or away percentage is NaN |
| `Schedule.MissingCountIsUndefinedXgDiff` | app.py:397 | a row counts as missing stats exactly when its xGDiff is undefined, so the missing count is the number of rows without xGDiff |
| `Schedule.XgDiffExample` | app.py:301 | ratios 0.5 and 0.3 give xGDiff 1.12 |
| `Schedule.ScheduleRowUsesTeamStats` | app.py:291-298 | on a loaded stats table, a row's ratio and percentage for each team are those of the one stats row with the team's join key, and a team without a stats row has neither |
| `Schedule.BuildScheduleWithMetrics` | app.py:282-308 | the schedule has one row per selected fixture, in order, each the enrichment of that fixture with the two lookup tables; `NoFixturesNoSchedule`, `ScheduleFixtures` and `ScheduleRowJoin` pin it down |
| `Schedule.Enrich` | app.py:294-301 | a row keeps its fixture, looks up both teams' ratios and percentages by join key, and has xGDiff 5.0 * home - 4.6 * away, defined exactly when both ratios are |
| `Schedule.MetricByName` | app.py:291 | the dict's keys are exactly the stats keys, and each maps to the ratio of the last row with that key |
| `Schedule.PctByName` | app.py:292 | the dict's keys are exactly the stats keys, and each maps to the percentage of the last row with that key |
| `Schedule.Resolve` | app.py:294-297 | a key the dict holds gives its value; a key the dict lacks gives NaN |
| `Schedule.LookupGivesLastRow` | app.py:291-298 | for any stats table, also one with repeated keys, a team's looked-up ratio and percentage are those of the last stats row with its key |

## Left out

- The Streamlit UI is presentation only. This covers `display_matches_by_matchweek`, both `main` definitions (the first is shadowed by the second), widgets, HTML markup, styling, the CSV download and the current-time display.
- `requests`, HTTP headers, timeouts and JSON decoding are abstracted. Each attempt's outcome is an input. The text of the error message is not modelled; only the fact that one was shown is.
- `st.cache_data` memoisation and `st.cache_data.clear()` are library behaviour, so they are left out.
- `convert_to_melbourne_time` is left out. It depends on a DST-aware timezone database and `strftime`.
- Rounding is left out. That covers `round(..., 2)` on `metric_%` and `.round(2)` / `.round(3)` on the schedule columns. Percentages and xGDiff are exact `real` values.
- Floating-point arithmetic in general is left out: `float(...)` conversions, NaN as a value, and IEEE behaviour. Ratios are `real`, and NaN is `None`.
- Timestamp parsing (`pd.to_datetime(errors="coerce")`) is left out. The kickoff arrives already parsed, or `None`.
- `Names.NormName`: `str.lower` is modelled for ASCII letters only. Python also lower-cases non-ASCII letters, and a few of them become ASCII (the Kelvin sign becomes `k`). The model deletes those characters instead.
- `Names.Lower`: lower-cases ASCII letters only and keeps every other character, so it always keeps the length. Python's `str.lower` also lower-cases non-ASCII letters, and a few of them become two characters (`'İ'`).
- `Fixtures.SortFixtures`: the contract states order and permutation. It does not state which of several rows with equal (kickoff, matchWeek, matchId) keys comes first.
- `Fixtures.FetchMatches`: the `while True` loop is modelled only for a server that ends the pagination within the supplied responses. A server whose every page carries a cursor makes the source loop forever, and that case is not modelled.
- Payloads on which the source raises are left out. In `fetch_matches` that is a `pagination` field that is `null` (app.py:106). In `fetch_stats` it is a `data` field that is `null` (app.py:74). In both it is a truthy `data` field that is not a list of objects. `fetch_matches` reads a `null` `data` as `[]` (app.py:105); the model covers that as a page without fixtures. The model takes `_next` as a string, `""` when absent.
- `Schedule.BuildScheduleWithMetrics` is defined for an empty stats table. With no stats, every lookup fails. The source would raise `KeyError` on a stats frame without columns, but `main` never calls it with one (app.py:350-352).
- Match limits (`head(match_limit)`) and the stats request parameters (`_sort`, `_limit`) are left out. They only shape the request or the display.
