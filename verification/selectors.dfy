/** Picking the most recent past game and the next future game of a team's
    schedule against one reference instant `now` (`get_last_game_score`,
    `get_next_game`). */
module Selectors {
  import opened Wrappers
  import opened Tables
  import opened Timestamps
  import opened Schedule

  /** The game's time is valid and strictly before `now`. */
  predicate IsPast(game: Game, now: DateTime) {
    CellBefore(game.gameDateTimeEst, now)
  }

  /** The game's time is valid and strictly after `now`. */
  predicate IsFuture(game: Game, now: DateTime) {
    CellAfter(game.gameDateTimeEst, now)
  }

  function PastMask(now: DateTime): Game -> bool {
    game => IsPast(game, now)
  }

  function FutureMask(now: DateTime): Game -> bool {
    game => IsFuture(game, now)
  }

  /** Position `i` holds the last past game of the schedule. */
  predicate IsLatestPast(games: seq<Game>, now: DateTime, i: int) {
    0 <= i < |games| && IsPast(games[i], now) &&
    forall j :: i < j < |games| ==> !IsPast(games[j], now)
  }

  /** Position `i` holds the first future game of the schedule. */
  predicate IsEarliestFuture(games: seq<Game>, now: DateTime, i: int) {
    0 <= i < |games| && IsFuture(games[i], now) &&
    forall j :: 0 <= j < i ==> !IsFuture(games[j], now)
  }

  /** `games.loc[games["gameDateTimeEst"] < T].iloc[-1]`; `None` stands for
      the error `iloc` raises when no game lies in the past. */
  function LastGame(games: seq<Game>, now: DateTime): (r: Option<Game>)
    ensures r.None? <==> forall i :: 0 <= i < |games| ==> !IsPast(games[i], now)
    ensures r.Some? ==> exists i :: IsLatestPast(games, now, i) && games[i] == r.value
  {
    var past := Filter(games, PastMask(now));
    if |past| == 0 then
      assert forall i :: 0 <= i < |games| ==> games[i] in games;
      None
    else
      FilterLast(games, PastMask(now));
      Some(past[|past| - 1])
  }

  /** `games.loc[games["gameDateTimeEst"] > T].iloc[0]`; `None` stands for
      the error `iloc` raises when no game lies in the future. */
  function NextGame(games: seq<Game>, now: DateTime): (r: Option<Game>)
    ensures r.None? <==> forall i :: 0 <= i < |games| ==> !IsFuture(games[i], now)
    ensures r.Some? ==> exists i :: IsEarliestFuture(games, now, i) && games[i] == r.value
  {
    var future := Filter(games, FutureMask(now));
    if |future| == 0 then
      assert forall i :: 0 <= i < |games| ==> games[i] in games;
      None
    else
      FilterFirst(games, FutureMask(now));
      Some(future[0])
  }

  /** A game scheduled exactly at `now` is neither the last nor the next game,
      and a game whose time did not parse is neither. */
  lemma NeitherPastNorFuture(games: seq<Game>, now: DateTime, game: Game)
    requires game.gameDateTimeEst.None? || game.gameDateTimeEst.value == now
    ensures LastGame(games, now) != Some(game)
    ensures NextGame(games, now) != Some(game)
  {
  }

  // ----- the last game's score -----

  /** A row of the box score's line-score table. */
  datatype LineScore = LineScore(gameId: string, teamId: int, teamAbbreviation: string,
                                 teamCityName: string, teamNickname: string, pts: int)

  /** A row of the score report: `TEAM_ABBREVIATION` and `PTS`. */
  datatype ScoreLine = ScoreLine(teamAbbreviation: string, pts: int)

  /** The score report for the last game: the line-score table that
      `boxScore` returns for that game's id, cut to two columns. */
  function LastGameScore(games: seq<Game>, now: DateTime, boxScore: string -> seq<LineScore>)
    : (r: Option<seq<ScoreLine>>)
    ensures r.None? <==> LastGame(games, now).None?
    ensures r.Some? ==>
      var lines := boxScore(LastGame(games, now).value.gameId);
      |r.value| == |lines| &&
      forall k :: 0 <= k < |lines| ==>
        r.value[k].teamAbbreviation == lines[k].teamAbbreviation && r.value[k].pts == lines[k].pts
  {
    match LastGame(games, now)
    case None => None
    case Some(last) =>
      var lines := boxScore(last.gameId);
      Some(seq(|lines|, k requires 0 <= k < |lines| => ScoreLine(lines[k].teamAbbreviation, lines[k].pts)))
  }

  // ----- the next game's summary -----

  /** The next game cut to away team, home team and channel, with its
      timestamp split into a date and a time of day. */
  datatype NextGameSummary = NextGameSummary(awayTeam: string, homeTeam: string, channel: string,
                                             date: Date, time: TimeOfDay)

  /** The summary shows the game's teams and channel, and its date and time
      together make up the game's timestamp. */
  predicate Summarizes(s: NextGameSummary, game: Game) {
    s.awayTeam == game.awayTeam && s.homeTeam == game.homeTeam && s.channel == game.channel &&
    game.gameDateTimeEst.Some? && game.gameDateTimeEst.value == Combine(s.date, s.time)
  }

  function GetNextGame(games: seq<Game>, now: DateTime): (r: Option<NextGameSummary>)
    ensures r.None? <==> forall i :: 0 <= i < |games| ==> !IsFuture(games[i], now)
    ensures r.Some? ==> exists i :: IsEarliestFuture(games, now, i) && Summarizes(r.value, games[i])
  {
    match NextGame(games, now)
    case None => None
    case Some(next) =>
      var t := next.gameDateTimeEst.value;
      Some(NextGameSummary(next.awayTeam, next.homeTeam, next.channel, DateOf(t), TimeOf(t)))
  }

  /** The summary's date and time, printed and joined with `T`, read back as
      the next game's timestamp. */
  lemma SummaryRoundTrip(games: seq<Game>, now: DateTime)
    requires GetNextGame(games, now).Some?
    ensures var s := GetNextGame(games, now).value;
      Printable(s.date, s.time) && Parse(Join(s.date, s.time)) == NextGame(games, now).value.gameDateTimeEst
  {
    var next := NextGame(games, now);
    assert next.Some?;
    var t := next.value.gameDateTimeEst.value;
    assert GetNextGame(games, now).value.date == DateOf(t);
    assert GetNextGame(games, now).value.time == TimeOf(t);
    SplitRoundTrip(t);
  }

  // ----- how the two selections sit in a chronological schedule -----

  /** Every time parsed and no game is earlier than one before it. */
  predicate Chronological(games: seq<Game>) {
    (forall i :: 0 <= i < |games| ==> games[i].gameDateTimeEst.Some?) &&
    forall i, j :: 0 <= i < j < |games| ==>
      !Earlier(games[j].gameDateTimeEst.value, games[i].gameDateTimeEst.value)
  }

  /** In a chronological schedule the last past game comes before the next
      future game, and every game between them is at exactly `now`. */
  lemma {:induction false} PastThenFuture(games: seq<Game>, now: DateTime, i: int, j: int)
    requires Chronological(games)
    requires IsLatestPast(games, now, i) && IsEarliestFuture(games, now, j)
    ensures i < j
    ensures forall k :: i < k < j ==> games[k].gameDateTimeEst.value == now
  {
    var ti, tj := games[i].gameDateTimeEst.value, games[j].gameDateTimeEst.value;
    if j < i {
      EarlierTransitive(ti, now, tj);
      assert false;
    }
    forall k | i < k < j ensures games[k].gameDateTimeEst.value == now {
      EarlierTotal(games[k].gameDateTimeEst.value, now);
    }
  }

  /** Three games two days before, one hour before and three days after
      `now`: the middle one is the last game and the third the next. */
  lemma ThreeGames()
    ensures var now := DateTime(2023, 1, 10, 20, 0, 0, 0);
      var g1 := Game("0022200601", Some(DateTime(2023, 1, 8, 20, 0, 0, 0)), "Suns", "Warriors", "TNT", 1, 2);
      var g2 := Game("0022200615", Some(DateTime(2023, 1, 10, 19, 0, 0, 0)), "Warriors", "Heat", LeaguePass, 3, 1);
      var g3 := Game("0022200640", Some(DateTime(2023, 1, 13, 20, 0, 0, 0)), "Celtics", "Warriors", "ESPN", 1, 4);
      LastGame([g1, g2, g3], now) == Some(g2) && NextGame([g1, g2, g3], now) == Some(g3)
  {
    var now := DateTime(2023, 1, 10, 20, 0, 0, 0);
    var g1 := Game("0022200601", Some(DateTime(2023, 1, 8, 20, 0, 0, 0)), "Suns", "Warriors", "TNT", 1, 2);
    var g2 := Game("0022200615", Some(DateTime(2023, 1, 10, 19, 0, 0, 0)), "Warriors", "Heat", LeaguePass, 3, 1);
    var g3 := Game("0022200640", Some(DateTime(2023, 1, 13, 20, 0, 0, 0)), "Celtics", "Warriors", "ESPN", 1, 4);
    var games := [g1, g2, g3];
    assert games[0] == g1 && games[1] == g2 && games[2] == g3;
    assert IsPast(g2, now) && !IsPast(g3, now);
    assert IsFuture(g3, now) && !IsFuture(g1, now) && !IsFuture(g2, now);
    var last := LastGame(games, now);
    var i :| IsLatestPast(games, now, i) && games[i] == last.value;
    var next := NextGame(games, now);
    assert next.Some?;
    var j :| IsEarliestFuture(games, now, j) && games[j] == next.value;
    assert !IsEarliestFuture(games, now, 0) && !IsEarliestFuture(games, now, 1);
  }
}
