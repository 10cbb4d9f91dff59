/** The team service: renaming a team and listing the teams. */
module Teams {
  import opened Wrappers
  import opened Store
  import opened Entities

  /** `ChangeTeamName`: an unknown team is an `ArgumentException`; an
      unchanged name does nothing; otherwise the row is deleted and the
      loaded team is re-created under its own id with the new name. */
  function ChangeTeamName(db: Db, teamId: int, newName: string): (r: Result<Db, Error>)
    ensures teamId !in db.teams <==> r == Failure(InvalidTeam)
    ensures r.Failure? ==> teamId !in db.teams
    ensures teamId in db.teams && db.teams[teamId].name == newName ==> r == Success(db)
    ensures r.Success? ==> r.value.(teams := db.teams) == db
    ensures r.Success? ==> forall k :: k in db.teams && k != teamId && k != db.teams[teamId].id ==>
                             k in r.value.teams && r.value.teams[k] == db.teams[k]
  {
    if teamId !in db.teams then Failure(InvalidTeam)
    else
      var team := db.teams[teamId];
      if team.name == newName then Success(db)
      else Success(db.(teams := (db.teams - {teamId})[team.id := team.(name := newName)]))
  }

  /** In a keyed store a rename replaces the team's name in place and keeps
      the store keyed. */
  lemma RenameInPlace(db: Db, teamId: int, newName: string)
    requires Keyed(db)
    requires teamId in db.teams
    ensures ChangeTeamName(db, teamId, newName) == Success(db.(teams := db.teams[teamId := Team(teamId, newName)]))
    ensures Keyed(ChangeTeamName(db, teamId, newName).value)
  {
    var team := db.teams[teamId];
    assert team.id == teamId;
    if team.name == newName {
      assert team == Team(teamId, newName);
      StoreSame(db.teams, teamId, team);
    } else {
      assert (db.teams - {teamId})[teamId := team.(name := newName)] == db.teams[teamId := Team(teamId, newName)];
    }
  }

  /** Renaming twice to the same name is renaming once. */
  lemma RenameIdempotent(db: Db, teamId: int, newName: string)
    requires Keyed(db)
    requires teamId in db.teams
    ensures var r := ChangeTeamName(db, teamId, newName);
            ChangeTeamName(r.value, teamId, newName) == r
  {
    RenameInPlace(db, teamId, newName);
  }

  /** Renaming a team and then renaming it back restores the store. */
  lemma RenameBackRestores(db: Db, teamId: int, newName: string)
    requires Keyed(db)
    requires teamId in db.teams
    ensures var oldName := db.teams[teamId].name;
            ChangeTeamName(ChangeTeamName(db, teamId, newName).value, teamId, oldName) == Success(db)
  {
    var team := db.teams[teamId];
    RenameInPlace(db, teamId, newName);
    var db' := ChangeTeamName(db, teamId, newName).value;
    RenameInPlace(db', teamId, team.name);
    assert team == Team(teamId, team.name);
    assert db.teams[teamId := Team(teamId, newName)][teamId := Team(teamId, team.name)] == db.teams;
  }

  /** `GetAllTeams`: every stored team, once each. */
  function GetAllTeams(db: Db): (r: seq<Team>)
    ensures |r| == |db.teams|
    ensures forall t :: t in r <==> t in db.teams.Values
  {
    Rows(db.teams)
  }

  /** In a keyed store no team is listed twice. */
  lemma TeamsListedOnce(db: Db)
    requires Keyed(db)
    ensures var r := GetAllTeams(db);
            forall i, j :: 0 <= i < j < |r| ==> r[i].id != r[j].id
  {
    RowIdsDistinct(db.teams, TeamId);
  }
}
