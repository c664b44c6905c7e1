/** The shapes of the views returned to clients. */
module Responses {

  import opened Seqs
  import opened Enums

  datatype VocView = VocView(id: int, full: string, short: string)

  datatype WordDefinitionView = WordDefinitionView(
    id: int, definition: string, status: WordDefinitionStatus, order: int, voc: Option<VocView>)

  datatype WordView = WordView(
    id: int,
    body: string,
    status: WordStatus,
    is_edited_after_load: bool,
    load_status: WordLoadStatus,
    definitions: seq<WordDefinitionView>,
    timestamp: int,
    difficulty: int)

  datatype TeamView = TeamView(id: int, name: string)

  datatype GameWordView = GameWordView(id: int, body: string)

  datatype GameWordResultView = GameWordResultView(result: bool, order: int, word: GameWordView)

  datatype GameTeamResultView = GameTeamResultView(
    id: int, score: int, team: TeamView, word_results: seq<GameWordResultView>)

  datatype GameView = GameView(
    id: int,
    penalty: bool,
    state: string,
    token: string,
    turn: int,
    word_count: int,
    round_time: int,
    team_results: seq<GameTeamResultView>,
    winner: Option<GameTeamResultView>,
    created_at: int,
    expired_at: int)
}
