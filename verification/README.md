# NBA schedule and standings helpers, modelled in Dafny

This project models the data-shaping logic of `utils.py`, a small helper module
that answers four questions about NBA teams:

- what a team's numeric id is;
- which games a team plays this season, and on which channel;
- which of those games was the most recent and which is the next;
- how the league standings table is arranged.

Every network fetch is replaced by its decoded result, which the model takes as
an input:

- the static team list;
- the `leagueSchedule.gameDates` structure of the schedule feed;
- the standings rows;
- the box-score line scores, given as a function from game id to rows.

The clock reading `T` is a parameter `now`.

The modules:

- `Teams` (`teams.dfy`): the `get_team_id` scan.
  - It is a `for` loop proved against `LastMatchId`.
  - Every match overwrites the id found so far, so the last match wins.
  - When no team has the name, the result is the sentinel `0`.
- `Timestamps` (`timestamps.dfy`): naive date-times, as pandas holds the `gameDateTimeEst` column.
  - `Parse` reads `YYYY-MM-DDTHH:MM:SS`, then an optional `.f` fraction of one to six digits, then an optional trailing `Z`.
  - A text that does not match, a date that does not exist, or an instant outside the range of a pandas `Timestamp` is `NaT`, written `None`.
  - `FormatDate` and `FormatTime` are Python's `str` of a `date` and a `time`.
- `Schedule` (`schedule.dfy`): the two nested loops of `get_team_schedule`.
  - They flatten `gameDates[].games[]` into seven-field rows.
  - `pd.concat` raises an error on a feed with no game entry; the result is then `None`.
  - The channel is the first national broadcaster, or `League Pass` when there is none.
  - The boolean mask then keeps the team's games whose parsed time is on or after 2022-10-17.
- `Selectors` (`selectors.dfy`): the selections against `now`.
  - The last game is the final game strictly before `now`; the next game is the first game strictly after it.
  - `iloc` on an empty selection raises an error, modelled as `None`.
  - The last game's box score is cut to two columns.
  - The next game's summary keeps the teams and the channel, and splits its timestamp into a date and a time.
- `Standings` (`standings.dfy`): the standings arrangement.
  - Rows are projected to team name, conference and record.
  - They are sorted in place on an array by a stable insertion sort, descending on (conference, record). Both columns are compared as text, like Python strings. pandas' multi-key `sort_values` is stable, so rows with equal keys keep their input order.
  - A blank row is added under index label 14.5. After `sort_index` it sits at position `min(15, n)`.
- `Tables` (`tables.dfy`): the boolean-mask selection `df.loc[mask]` as an order-keeping filter.
- `Wrappers` (`option.dfy`): `Option`.

The model follows the code as written:

- The lookup loop never breaks, so the last matching team wins (utils.py:18-20).
- The next game must be strictly later than `now` (`>`, utils.py:52).
- Records are sorted as text, so `"9-3"` sorts above `"10-2"` (utils.py:28).
- The blank row is added at the fixed index label 14.5, so it sits at position `min(15, n)`, which is 15 for a full league, whatever the conferences are (utils.py:32-35).

## Model

| member | source | states |
|---|---|---|
| Teams.GetTeamId | utils.py:12-22 | The scan returns the id of the last team whose full name equals the query, and `NotFound` (0) when no team has that name. |
| Teams.NoMatchIsNotFound | utils.py:14-22 | With no team of that name, the lookup yields the sentinel 0. |
| Teams.LastMatchWins | utils.py:18-20 | When several teams match, the lookup yields the id of the last one in list order, because the loop never breaks. |
| Teams.SentinelIffMissing | utils.py:14-22 | When no listed id is 0, the lookup yields 0 exactly when no team has the name. |
| Schedule.FlattenSchedule | utils.py:99-114 | The nested loops produce the concatenation of each date's rows in feed order, and exactly one row per game entry summed over all dates. |
| Schedule.FlattenLength | utils.py:99-116 | The flattened table has as many rows as there are game entries over all dates. |
| Schedule.FlattenAt | utils.py:103-114 | Game `g` of date `d` becomes the row at offset (games of earlier dates) + `g`. That row carries the entry's id, parsed time, team names and team ids unchanged. Its channel is the first national broadcaster's display name, or `League Pass` when the list is empty. |
| Schedule.FlattenOrigin | utils.py:99-116 | Every row of the table was built from some game entry of some date, at that entry's offset. |
| Schedule.TeamScheduleMembers | utils.py:122 | A row is kept exactly when it is in the table, the team is its away or home side, and its time parsed and is not before 2022-10-17 00:00. |
| Schedule.TeamScheduleOrder | utils.py:122 | The selection keeps table order: the selection of two tables one after the other is the two selections one after the other. |
| Schedule.GetTeamSchedule | utils.py:116-124 | The result is `None`, the error `pd.concat` raises, exactly when the feed holds no game entry. Otherwise it is the team selection of the flattened, parsed table: no kept row has a `NaT` time, and every feed entry whose row passes the mask is in the result. |
| Schedule.ChannelOfFeed | utils.py:105-109 | With no national broadcaster the channel is `League Pass`; otherwise it is the first broadcaster's display name, whatever broadcasters follow it. |
| Timestamps.Parse | utils.py:119 | A value is produced only for text laid out as `YYYY-MM-DDTHH:MM:SS` with digit fields, only for a date and time that exist, and its fields are the numbers those digits spell. |
| Timestamps.JoinParses | utils.py:119 | A printed date and time parse back to that instant when it exists and lies in the pandas `Timestamp` range, and to `NaT` otherwise. |
| Timestamps.SpelledJoin | utils.py:119 | The parser reads the printed fields back as the same fields, before any range check. |
| Timestamps.ZoneDropped | utils.py:119 | A trailing `Z` zone designator does not change the parsed value, since the zone is dropped after parsing. |
| Timestamps.MissingDateIsNaT | utils.py:119 | A date that does not exist (29 February 2023) is coerced to `NaT`. |
| Timestamps.SplitRoundTrip | utils.py:61-63 | A timestamp is recovered from its date and its time, both as a value and as `str(date) + "T" + str(time)` read back by the parser. |
| Tables.Filter | utils.py:41 | `df.loc[mask]`: the selection is no longer than the table, and a row is in it exactly when it is in the table and passes the mask. |
| Tables.FilterConcat | utils.py:122 | A boolean-mask selection of two tables one after the other is the selection of the first followed by that of the second, so row order is kept. |
| Tables.FilterFirst | utils.py:53 | The first row of a selection is a row of the table that passes the mask, with no earlier row passing it. |
| Tables.FilterLast | utils.py:42 | The last row of a selection is a row of the table that passes the mask, with no later row passing it. |
| Selectors.LastGame | utils.py:41-42 | The result is absent exactly when no game has a valid time strictly before `now`. Otherwise it is the game at the last position with such a time. |
| Selectors.NextGame | utils.py:52-53 | The result is absent exactly when no game has a valid time strictly after `now`. Otherwise it is the game at the first position with such a time. |
| Selectors.NeitherPastNorFuture | utils.py:41-52 | A game scheduled exactly at `now`, or whose time is `NaT`, is neither the last game nor the next game. |
| Selectors.LastGameScore | utils.py:40-48 | The score report is absent exactly when there is no last game. Otherwise it has one line per box-score row of the last game's id, with that row's team abbreviation and points. |
| Selectors.GetNextGame | utils.py:51-69 | The summary is absent exactly when no game lies strictly after `now`. Otherwise it shows the first future game's away team, home team and channel, and its date and time together make up that game's timestamp. |
| Selectors.SummaryRoundTrip | utils.py:58-66 | The summary's date and time, printed and joined with `T`, parse back to the next game's timestamp. |
| Selectors.PastThenFuture | utils.py:41-53 | In a chronological schedule, the last past game comes before the next future game, and every game between them is exactly at `now`. |
| Selectors.ThreeGames | utils.py:41-53 | With games two days before, one hour before and three days after `now`, the middle game is the last game and the third is the next. |
| Standings.SortDescendingSpec | utils.py:28 | The sorted rows are in descending (conference, record) text order, and they are a permutation of the input rows. |
| Standings.InsertPermutes | utils.py:28 | Placing one row into the sorted rows adds exactly that row. |
| Standings.InsertDescending | utils.py:28 | Placing a row into descending rows keeps them descending. |
| Standings.InsertAt | utils.py:28 | A row is placed after every row that sorts at or above it, and before the first row that sorts below it. |
| Standings.InsertInPlace | utils.py:28 | One step of the in-place sort: the first `i + 1` slots become the sorted prefix with row `i` placed into it, and the rest of the array is unchanged. |
| Standings.SortInPlace | utils.py:28 | The array ends up holding the stable descending sort of its initial contents. |
| Standings.SortStable | utils.py:28 | Rows with the same conference and record keep their input order. |
| Standings.TextualRecordOrder | utils.py:28 | Records compare as text: in one conference a `9-3` team is listed above a `10-2` team. |
| Standings.InsertByLabel | utils.py:32-35 | Ordering the rows with the blank row by index label yields one row more, and the blank row is among them. |
| Standings.DividerAt | utils.py:32-35 | With rows labelled from 0, the blank row sits at `min(15, n)`, and taking it out gives the rows back in order. |
| Standings.InsertByLabelAt | utils.py:32-35 | Ordering the blank row labelled 14.5 among rows labelled 0, 1, ... puts it at position `min(15, n)`. |
| Standings.GetLeagueStandings | utils.py:25-37 | The table has one row more than the standings. The blank row sits at position `min(15, n)`. Without it, the table is the stable descending sort of the projected rows. |
| Standings.StandingsReport | utils.py:27-35 | Without the blank row, the table is descending and a permutation of the projected rows. When no team row is blank, the divider is the only blank row. |

## Left out

- The HTTP request, its headers and the JSON decoding (utils.py:74-93) are network I/O. The decoded `gameDates` list is an input.
- The `nba_api` calls `teams.get_teams`, `LeagueStandingsV3` and `BoxScoreSummaryV2` (utils.py:13, 26, 45) are foreign network calls. Their results are inputs: a team list, a sequence of standings rows, and a function from game id to line-score rows.
- `datetime.now()` at import time (utils.py:10) is the parameter `now`.
- `app.py` only calls these functions and prints their results. `app.py` is not part of this model.
- pandas bookkeeping is not modelled: DataFrame construction, `concat` (apart from its error on an empty list), column dtypes, and the all-zero index labels `pd.concat` leaves at utils.py:116. The labels 0, 1, ... that `reset_index(drop=True)` gives at utils.py:29 are modelled as `InsertByLabel`'s `first`; only the labels of the returned frame (utils.py:35) are not. The effect of `tz_localize(None)`, dropping the zone, is part of `Parse`. Each table is the sequence of its rows in order.
- Timestamps.Parse: assumes the pandas 1.x reading of the format at utils.py:119. Since `"%Y-%m-%dT%H:%M:%S.%f"` looks like ISO 8601, pandas 1.x hands the column to its general ISO reader, so the fraction is optional and a `Z` is accepted; `.dt.tz_localize(None)` presumes such zoned values. pandas 2.x matches the format exactly and would turn every `...:00Z` value into `NaT`; that behaviour is not modelled.
- Timestamps.Parse: works cell by cell. With the 1.x reader, a column that mixes zoned and zone-less strings does not become a datetime column at all, and `.dt` then raises; that whole-column failure is not modelled.
- Timestamps.Parse: covers only the ISO-8601 forms the feed uses (fixed-width fields, an optional fraction of at most six digits, an optional `Z`). Other spellings pandas' ISO reader accepts are not modelled: numeric zone offsets, a space separator, or nanosecond fractions.
- Timestamps.Earlier: compares naive fields. No time zone or daylight saving is involved, because the zone is dropped at parse time.
- Schedule.PreseasonStart: comparing with the string `"2022-10-17"` is modelled as comparing with midnight of that day.
- Teams.SentinelIffMissing: the "0 exactly when missing" direction needs every listed id to differ from 0. A team whose id were 0 would be indistinguishable from a miss.
- Selectors.LastGame: the `IndexError` that `iloc` raises on an empty selection is the value `None`. The exception itself is not modelled. Selectors.NextGame, Selectors.LastGameScore and Selectors.GetNextGame treat it the same way.
- Schedule.GetTeamSchedule: the `ValueError` that `pd.concat` raises on a feed with no game entry (utils.py:116) is the value `None`. The exception itself is not modelled.
- Standings.SortInPlace: pandas' sorting algorithm is replaced by an insertion sort. Both are stable, so the resulting order is the same; the algorithm itself is not modelled.
- Standings.GetLeagueStandings: missing values in the `Conference` or `Record` columns are not modelled. The row labels of the returned frame are not modelled either.
