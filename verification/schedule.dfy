/** The league schedule feed (`leagueSchedule.gameDates[].games[]`),
    flattened into one table of games, and the selection of one team's
    games from the season start on (`get_team_schedule`). */
module Schedule {
  import opened Wrappers
  import opened Tables
  import opened Timestamps

  // ----- the decoded feed -----

  datatype TeamRef = TeamRef(teamName: string, teamId: int)
  datatype Broadcaster = Broadcaster(broadcasterDisplay: string)

  /** One entry of a date's `games` list; `nationalBroadcasters` is the list
      under its `broadcasters` key. */
  datatype FeedGame = FeedGame(gameId: string, gameDateTimeEst: string,
                               awayTeam: TeamRef, homeTeam: TeamRef,
                               nationalBroadcasters: seq<Broadcaster>)

  datatype GameDate = GameDate(games: seq<FeedGame>)

  // ----- the flattened table -----

  /** One row of the schedule table, its timestamp already parsed. */
  datatype Game = Game(gameId: string, gameDateTimeEst: Cell, awayTeam: string, homeTeam: string,
                       channel: string, homeTeamId: int, awayTeamId: int)

  /** The channel shown for games without a national broadcaster. */
  const LeaguePass := "League Pass"

  /** The first national broadcaster's display name, or `LeaguePass`. */
  function Channel(national: seq<Broadcaster>): string {
    if |national| > 0 then national[0].broadcasterDisplay else LeaguePass
  }

  /** The row built for one feed entry. */
  function Row(e: FeedGame): Game {
    Game(e.gameId, Parse(e.gameDateTimeEst), e.awayTeam.teamName, e.homeTeam.teamName,
         Channel(e.nationalBroadcasters), e.homeTeam.teamId, e.awayTeam.teamId)
  }

  function Rows(es: seq<FeedGame>): seq<Game> {
    seq(|es|, i requires 0 <= i < |es| => Row(es[i]))
  }

  /** All rows of the feed: each date's games in turn. */
  function Flatten(dates: seq<GameDate>): seq<Game> {
    if |dates| == 0 then [] else Flatten(dates[..|dates| - 1]) + Rows(dates[|dates| - 1].games)
  }

  /** The number of game entries summed over all dates. */
  function GameCount(dates: seq<GameDate>): nat {
    if |dates| == 0 then 0 else GameCount(dates[..|dates| - 1]) + |dates[|dates| - 1].games|
  }

  /** The nested loops: one row appended per game entry, date by date. */
  method FlattenSchedule(dates: seq<GameDate>) returns (games: seq<Game>)
    ensures games == Flatten(dates)
    ensures |games| == GameCount(dates)
  {
    games := [];
    for d := 0 to |dates|
      invariant games == Flatten(dates[..d])
    {
      var entries := dates[d].games;
      ghost var before := games;
      for g := 0 to |entries|
        invariant games == before + Rows(entries[..g])
      {
        var e := entries[g];
        var channel: string;
        if |e.nationalBroadcasters| > 0 {
          channel := e.nationalBroadcasters[0].broadcasterDisplay;
        } else {
          channel := LeaguePass;
        }
        var row := Game(e.gameId, Parse(e.gameDateTimeEst), e.awayTeam.teamName, e.homeTeam.teamName,
                        channel, e.homeTeam.teamId, e.awayTeam.teamId);
        assert row == Row(e);
        assert Rows(entries[..g + 1]) == Rows(entries[..g]) + [row];
        games := games + [row];
      }
      assert entries[..|entries|] == entries;
      assert dates[..d + 1][..d] == dates[..d];
    }
    assert dates[..|dates|] == dates;
    FlattenLength(dates);
  }

  lemma {:induction false} FlattenLength(dates: seq<GameDate>)
    ensures |Flatten(dates)| == GameCount(dates)
  {
    if |dates| > 0 {
      FlattenLength(dates[..|dates| - 1]);
    }
  }

  /** Game `g` of date `d` becomes the row at offset `GameCount(dates[..d]) + g`,
      carrying its id, timestamp, team names and team ids unchanged and the
      channel of its first national broadcaster, if any. */
  lemma {:induction false} FlattenAt(dates: seq<GameDate>, d: nat, g: nat)
    requires d < |dates| && g < |dates[d].games|
    ensures var k := GameCount(dates[..d]) + g;
      var e := dates[d].games[g];
      k < |Flatten(dates)| &&
      Flatten(dates)[k].gameId == e.gameId &&
      Flatten(dates)[k].gameDateTimeEst == Parse(e.gameDateTimeEst) &&
      Flatten(dates)[k].awayTeam == e.awayTeam.teamName &&
      Flatten(dates)[k].homeTeam == e.homeTeam.teamName &&
      Flatten(dates)[k].awayTeamId == e.awayTeam.teamId &&
      Flatten(dates)[k].homeTeamId == e.homeTeam.teamId &&
      Flatten(dates)[k].channel == (if |e.nationalBroadcasters| > 0
                                    then e.nationalBroadcasters[0].broadcasterDisplay
                                    else LeaguePass)
  {
    var n := |dates|;
    var init := dates[..n - 1];
    FlattenLength(init);
    if d == n - 1 {
      assert init == dates[..d];
    } else {
      FlattenAt(init, d, g);
      assert init[..d] == dates[..d];
      assert init[d] == dates[d];
    }
  }

  /** Every row of the table comes from some game entry of some date. */
  lemma {:induction false} FlattenOrigin(dates: seq<GameDate>, k: nat)
    requires k < |Flatten(dates)|
    ensures exists d, g :: 0 <= d < |dates| && 0 <= g < |dates[d].games| &&
                           k == GameCount(dates[..d]) + g && Flatten(dates)[k] == Row(dates[d].games[g])
  {
    var n := |dates|;
    var init := dates[..n - 1];
    FlattenLength(init);
    if k < |Flatten(init)| {
      FlattenOrigin(init, k);
      var d, g :| 0 <= d < |init| && 0 <= g < |init[d].games| &&
                  k == GameCount(init[..d]) + g && Flatten(init)[k] == Row(init[d].games[g]);
      assert init[..d] == dates[..d];
      assert init[d] == dates[d];
    } else {
      assert init == dates[..n - 1];
      var g := k - GameCount(init);
      assert Flatten(dates)[k] == Row(dates[n - 1].games[g]);
    }
  }

  // ----- one team's schedule -----

  /** `PRESEASON_DATE`, compared as midnight of that day. */
  const PreseasonStart := DateTime(2022, 10, 17, 0, 0, 0, 0)

  /** The mask: the team plays away or at home, and the parsed time is on or
      after the season start (never true for `NaT`). */
  predicate InTeamSchedule(game: Game, teamId: int) {
    (game.awayTeamId == teamId || game.homeTeamId == teamId) &&
    CellAtOrAfter(game.gameDateTimeEst, PreseasonStart)
  }

  function IsTeamGame(teamId: int): Game -> bool {
    game => InTeamSchedule(game, teamId)
  }

  /** The team's games from the season start on, in table order. */
  function TeamSchedule(games: seq<Game>, teamId: int): seq<Game> {
    Filter(games, IsTeamGame(teamId))
  }

  /** A game is in the team's schedule exactly when it is in the table, the
      team is one of its two sides, and its time parsed and is not before
      the season start. */
  lemma TeamScheduleMembers(games: seq<Game>, teamId: int)
    ensures forall x :: x in TeamSchedule(games, teamId) <==>
      x in games && (x.awayTeamId == teamId || x.homeTeamId == teamId) &&
      x.gameDateTimeEst.Some? && !Earlier(x.gameDateTimeEst.value, PreseasonStart)
  {
  }

  /** The selection keeps table order: selecting from two tables one after
      the other gives the two selections one after the other. */
  lemma TeamScheduleOrder(games: seq<Game>, more: seq<Game>, teamId: int)
    ensures TeamSchedule(games + more, teamId) == TeamSchedule(games, teamId) + TeamSchedule(more, teamId)
  {
    FilterConcat(games, more, IsTeamGame(teamId));
  }

  /** `get_team_schedule` after the fetch: flatten, concatenate, parse,
      select. `None` stands for the error `pd.concat` raises when the feed
      holds no game entry at all. */
  method GetTeamSchedule(dates: seq<GameDate>, teamId: int) returns (teamGames: Option<seq<Game>>)
    ensures teamGames.None? <==> GameCount(dates) == 0
    ensures teamGames.Some? ==> teamGames.value == TeamSchedule(Flatten(dates), teamId)
    ensures teamGames.Some? ==> forall x :: x in teamGames.value ==> x.gameDateTimeEst.Some?
    ensures teamGames.Some? ==>
      forall d, g :: (0 <= d < |dates| && 0 <= g < |dates[d].games| &&
                      InTeamSchedule(Row(dates[d].games[g]), teamId)) ==> Row(dates[d].games[g]) in teamGames.value
  {
    var games := FlattenSchedule(dates);
    if |games| == 0 {
      return None;
    }
    var selected := TeamSchedule(games, teamId);
    forall d, g | 0 <= d < |dates| && 0 <= g < |dates[d].games| &&
                  InTeamSchedule(Row(dates[d].games[g]), teamId)
      ensures Row(dates[d].games[g]) in selected
    {
      FlattenAt(dates, d, g);
      assert Flatten(dates)[GameCount(dates[..d]) + g] == Row(dates[d].games[g]);
    }
    teamGames := Some(selected);
  }

  /** Only the first national broadcaster decides the channel, whatever
      follows it; with none the game is on `LeaguePass`. */
  lemma ChannelOfFeed(national: seq<Broadcaster>, more: seq<Broadcaster>)
    ensures |national| == 0 ==> Channel(national) == LeaguePass
    ensures |national| > 0 ==> Channel(national + more) == national[0].broadcasterDisplay
  {
  }
}
