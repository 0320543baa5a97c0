/** Resolving a team's full name to its numeric id by scanning the static
    team list (`get_team_id`). */
module Teams {

  /** One entry of the static team list. */
  datatype Team = Team(id: int, fullName: string, abbreviation: string, nickname: string,
                       city: string, state: string, yearFounded: int)

  /** The id the lookup yields when no team has the name. */
  const NotFound := 0

  predicate Matches(t: Team, name: string) {
    t.fullName == name
  }

  /** Position `i` holds the last team in `teams` whose full name is `name`. */
  predicate IsLastMatch(teams: seq<Team>, name: string, i: int) {
    0 <= i < |teams| && Matches(teams[i], name) &&
    forall j :: i < j < |teams| ==> !Matches(teams[j], name)
  }

  /** The id of the last team in `teams` whose full name is `name`, or
      `NotFound` when there is none. */
  function LastMatchId(teams: seq<Team>, name: string): int {
    if |teams| == 0 then NotFound
    else if Matches(teams[|teams| - 1], name) then teams[|teams| - 1].id
    else LastMatchId(teams[..|teams| - 1], name)
  }

  /** The scan: every matching team overwrites the id found so far, so the
      last match wins; no match leaves the initial `NotFound`. */
  method GetTeamId(teams: seq<Team>, name: string) returns (id: int)
    ensures (forall i :: 0 <= i < |teams| ==> !Matches(teams[i], name)) ==> id == NotFound
    ensures forall i :: IsLastMatch(teams, name, i) ==> id == teams[i].id
    ensures id == LastMatchId(teams, name)
  {
    id := NotFound;
    for k := 0 to |teams|
      invariant id == LastMatchId(teams[..k], name)
    {
      assert teams[..k + 1][..k] == teams[..k];
      if Matches(teams[k], name) {
        id := teams[k].id;
      }
    }
    assert teams[..|teams|] == teams;
    NoMatchIsNotFound(teams, name);
    LastMatchWins(teams, name);
  }

  /** With no team of that name, the lookup degrades to the sentinel. */
  lemma {:induction false} NoMatchIsNotFound(teams: seq<Team>, name: string)
    ensures (forall i :: 0 <= i < |teams| ==> !Matches(teams[i], name)) ==> LastMatchId(teams, name) == NotFound
  {
    if |teams| > 0 && forall i :: 0 <= i < |teams| ==> !Matches(teams[i], name) {
      var init := teams[..|teams| - 1];
      NoMatchIsNotFound(init, name);
      assert forall i :: 0 <= i < |init| ==> init[i] == teams[i];
    }
  }

  /** With at least one team of that name, the lookup yields the id of the
      last one in list order. */
  lemma {:induction false} LastMatchWins(teams: seq<Team>, name: string)
    ensures forall i :: IsLastMatch(teams, name, i) ==> LastMatchId(teams, name) == teams[i].id
  {
    if |teams| > 0 {
      var init := teams[..|teams| - 1];
      LastMatchWins(init, name);
      forall i | IsLastMatch(teams, name, i)
        ensures LastMatchId(teams, name) == teams[i].id
      {
        if i < |teams| - 1 {
          assert init[i] == teams[i];
          assert forall j :: i < j < |init| ==> init[j] == teams[j];
          assert IsLastMatch(init, name, i);
        }
      }
    }
  }

  /** When every listed id differs from the sentinel, the lookup yields the
      sentinel exactly when no team has the name. */
  lemma {:induction false} SentinelIffMissing(teams: seq<Team>, name: string)
    requires forall i :: 0 <= i < |teams| ==> teams[i].id != NotFound
    ensures LastMatchId(teams, name) == NotFound <==> forall i :: 0 <= i < |teams| ==> !Matches(teams[i], name)
  {
    NoMatchIsNotFound(teams, name);
    if exists i :: 0 <= i < |teams| && Matches(teams[i], name) {
      var last := LastIndexOf(teams, name);
      LastMatchWins(teams, name);
    }
  }

  /** Index of the last team of that name, when there is one. */
  lemma LastIndexOf(teams: seq<Team>, name: string) returns (last: nat)
    requires exists i :: 0 <= i < |teams| && Matches(teams[i], name)
    ensures last < |teams| && Matches(teams[last], name)
    ensures forall j :: last < j < |teams| ==> !Matches(teams[j], name)
  {
    last := |teams| - 1;
    while !Matches(teams[last], name)
      invariant last < |teams|
      invariant exists i :: 0 <= i <= last && Matches(teams[i], name)
      invariant forall j :: last < j < |teams| ==> !Matches(teams[j], name)
      decreases last
    {
      last := last - 1;
    }
  }
}
