/** The per-team record of a game: which team, in which game, in which seat. */
module TeamResults {

  import opened Error

  datatype TeamResult = TeamResult(id: int, team_id: int, game_id: int, order: int)

  /** `team_result::new`: never fails, and stores exactly the given fields. */
  function NewTeamResult(id: int, teamId: int, gameId: int, order: int): (r: VortoResult<TeamResult>)
    ensures r.Ok?
    ensures r.value.id == id && r.value.team_id == teamId
    ensures r.value.game_id == gameId && r.value.order == order
  {
    Ok(TeamResult(id, teamId, gameId, order))
  }
}
