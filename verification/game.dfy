/**
 The vocabulary game engine: creating a game with one seat per team, the
 gate a round passes before it is booked (token, active state, expiry, word
 budget), the acting team chosen by the turn counter, scoring, game-over
 detection with winner selection, and the word results a round produces.
 Times are whole seconds; the game token is supplied by the caller.
 */
module Games {

  import opened Seqs
  import opened Error
  import opened DomainCommon
  import opened Enums
  import opened Common
  import opened Text
  import opened TeamResults
  import opened WordResults

  const EXPIRED_HOURS: int := 10
  /** `Duration::hours(EXPIRED_HOURS)` in seconds. */
  const EXPIRED_SECONDS: int := EXPIRED_HOURS * 3600

  const I32_MIN: int := -0x8000_0000
  const I32_MAX: int := 0x7FFF_FFFF
  type I32 = x: int | I32_MIN <= x <= I32_MAX

  /** `x as usize` on a 64-bit target: a negative `i32` is sign-extended, i.e. wraps modulo 2^64. */
  const USIZE_MODULUS: int := 0x1_0000_0000_0000_0000

  function AsUsize(x: I32): (u: nat)
    ensures u < USIZE_MODULUS
    ensures x >= 0 ==> u == x
    ensures x < 0 ==> u == x + USIZE_MODULUS && u > I32_MAX
  {
    if x >= 0 then x else x + USIZE_MODULUS
  }

  /** `x + 1` on `i32` in a release build: wraps from the maximum to the minimum. */
  function WrappingInc(x: I32): (y: I32)
    ensures x < I32_MAX ==> y == x + 1
    ensures x == I32_MAX ==> y == I32_MIN
  {
    if x == I32_MAX then I32_MIN else x + 1
  }

  /** A team as the game sees it; only its id and the number of teams matter here. */
  datatype Team = Team(id: int, name: string)

  datatype Game = Game(
    id: int,
    state: string,
    word_count: I32,
    penalty: bool,
    round_time: int,
    winner_id: Option<int>,
    turn: I32,
    token: string,
    created_at: int,
    expired_at: int)

  /** The team results of a game, each with the word results booked to it so far. */
  type TeamResultsWords = seq<(TeamResult, seq<WordResult>)>

  const TeamSizeError: VortoError := NewError(TeamSize, "Should be at least 2 teams")
  const RoundTimeError: VortoError := NewError(Validation, "Round time valid range 1-1000")
  /** The text says 5000 although the accepted bound is 500. */
  const WordCountError: VortoError := NewError(Validation, "Word count valid range 1-5000")
  const TokenError: VortoError := NewError(InvalidGameToken, "Invalid game token")
  const ActiveError: VortoError := NewError(ActiveGame, "Game must be active")
  const TooManyWordsError: VortoError := NewError(TooManyWords, "Too many words")

  function ExpiredError(game: Game): VortoError {
    NewError(ExpiredGame, "Game expired at " + IntToString(game.expired_at))
  }

  function ValidateTeamCount(teams: seq<Team>): (r: VortoResult<()>)
    ensures r.Ok? <==> |teams| >= 2
    ensures r.Err? ==> r.error == TeamSizeError
  {
    ValidateFn(() => |teams| < 2, TeamSizeError)
  }

  function ValidateRoundTime(roundTime: int): (r: VortoResult<()>)
    ensures r.Ok? <==> 1 <= roundTime <= 1000
    ensures r.Err? ==> r.error == RoundTimeError
  {
    ValidateFn(() => roundTime < 1 || roundTime > 1000, RoundTimeError)
  }

  function ValidateWordCount(wordCount: int): (r: VortoResult<()>)
    ensures r.Ok? <==> 1 <= wordCount <= 500
    ensures r.Err? ==> r.error == WordCountError
  {
    ValidateFn(() => wordCount < 1 || wordCount > 500, WordCountError)
  }

  /** The seat of team `i`: a fresh (unsaved) team result with `order` = position. */
  function SeatOf(teams: seq<Team>, i: int): VortoResult<TeamResult>
    requires 0 <= i < |teams|
  {
    NewTeamResult(-1, teams[i].id, -1, i)
  }

  /**
   `game::new`: the three validations in order (team count, round time, word
   count), then an active game with turn 0, no winner, expiring ten hours
   after `now`, and one seat per team, in team order.
   */
  function NewGame(
    id: int, wordCount: I32, penalty: bool, roundTime: int, teams: seq<Team>, now: int, token: string
  ): (r: VortoResult<(Game, seq<TeamResult>)>)
    ensures |teams| < 2 ==> r == Err(TeamSizeError)
    ensures |teams| >= 2 && !(1 <= roundTime <= 1000) ==> r == Err(RoundTimeError)
    ensures |teams| >= 2 && 1 <= roundTime <= 1000 && !(1 <= wordCount <= 500) ==> r == Err(WordCountError)
    ensures r.Ok? <==> |teams| >= 2 && 1 <= roundTime <= 1000 && 1 <= wordCount <= 500
    ensures r.Ok? ==>
      var game := r.value.0;
      game.id == id && game.word_count == wordCount && game.penalty == penalty &&
      game.round_time == roundTime && game.token == token &&
      game.state == GameStateToString(GameActive) && game.turn == 0 && game.winner_id == None &&
      game.created_at == now && game.expired_at == now + EXPIRED_SECONDS
    ensures r.Ok? ==>
      var seats := r.value.1;
      |seats| == |teams| &&
      forall i :: 0 <= i < |teams| ==>
        seats[i].team_id == teams[i].id && seats[i].order == i && seats[i].id == -1 && seats[i].game_id == -1
  {
    var _ :- ValidateTeamCount(teams);
    var _ :- ValidateRoundTime(roundTime);
    var _ :- ValidateWordCount(wordCount);
    var game := Game(id, GameStateToString(GameActive), wordCount, penalty, roundTime, None, 0, token,
                     now, now + EXPIRED_SECONDS);
    // `team_result::new` never fails, so the `?` on the reduced seats never returns early
    var seats := ReduceResults(seq(|teams|, i requires 0 <= i < |teams| => SeatOf(teams, i))).value;
    Ok((game, seats))
  }

  function ValidateToken(game: Game, token: string): (r: VortoResult<()>)
    ensures r.Ok? <==> game.token == token
    ensures r.Err? ==> r.error == TokenError
  {
    ValidateFn(() => game.token != token, TokenError)
  }

  function ValidateActive(game: Game): (r: VortoResult<()>)
    ensures r.Ok? <==> game.state == "active"
    ensures r.Err? ==> r.error == ActiveError
  {
    ValidateFn(() => game.state != GameStateToString(GameActive), ActiveError)
  }

  /** Expired only once `now` is strictly past `expired_at`: the expiry instant itself still passes. */
  function ValidateExpired(game: Game, now: int): (r: VortoResult<()>)
    ensures r.Ok? <==> now <= game.expired_at
    ensures r.Err? ==> r.error == ExpiredError(game) && CodeOfValue(r.error.code) == Some(ExpiredGame)
  {
    ValidateFn(() => game.expired_at < now, ExpiredError(game))
  }

  /** The three checks a round passes before the acting team is looked up. */
  predicate PassesGate(game: Game, token: string, now: int) {
    game.token == token && game.state == "active" && now <= game.expired_at
  }

  /**
   The acting team: the item at `turn as usize` of the cycled team list, that
   is the seat at `turn` modulo the number of seats. An empty list panics.
   */
  function CurrentTeamResult(game: Game, trw: TeamResultsWords): (tr: TeamResult)
    requires |trw| > 0
    ensures tr == trw[AsUsize(game.turn) % |trw|].0
  {
    CycleNthIsMod(trw, AsUsize(game.turn));
    CycleNth(trw, AsUsize(game.turn)).0
  }

  /** Words booked so far, over all teams. */
  function GameWordCount(trw: TeamResultsWords): (n: nat)
    ensures forall i :: 0 <= i < |trw| ==> |trw[i].1| <= n
    ensures |trw| == 1 ==> n == |trw[0].1|
    decreases |trw|
  {
    if |trw| == 0 then 0
    else
      var k := |trw| - 1;
      assert forall i :: 0 <= i < k ==> trw[..k][i] == trw[i];
      GameWordCount(trw[..k]) + |trw[k].1|
  }

  /** The count of a concatenation is the sum of the counts: with the one-team
      case, each team's words are counted once. */
  lemma {:induction false} GameWordCountConcat(a: TeamResultsWords, b: TeamResultsWords)
    ensures GameWordCount(a + b) == GameWordCount(a) + GameWordCount(b)
    decreases |b|
  {
    if |b| == 0 {
      assert a + b == a;
    } else {
      var k := |b| - 1;
      assert (a + b)[..|a + b| - 1] == a + b[..k];
      assert (a + b)[|a + b| - 1] == b[k];
      GameWordCountConcat(a, b[..k]);
    }
  }

  function ValidateWordsCount(game: Game, trw: TeamResultsWords, batch: seq<(int, bool)>): (r: VortoResult<()>)
    ensures r.Ok? <==> GameWordCount(trw) + |batch| <= AsUsize(game.word_count)
    ensures r.Err? ==> r.error == TooManyWordsError
  {
    ValidateFn(() => GameWordCount(trw) + |batch| > AsUsize(game.word_count), TooManyWordsError)
  }

  /** A guessed word scores one point; a missed word costs one only under the penalty rule. */
  function GetScore(penalty: bool, result: bool): (s: int)
    ensures -1 <= s <= 1
    ensures s > 0 <==> result
    ensures s < 0 <==> !result && penalty
  {
    if result then 1 else if penalty then -1 else 0
  }

  /** `calc_score`: the sum of the per-word scores. */
  function CalcScore(penalty: bool, results: seq<bool>): (s: int)
    ensures -|results| <= s <= |results|
    ensures !penalty ==> s >= 0
    decreases |results|
  {
    if |results| == 0 then 0
    else CalcScore(penalty, results[..|results| - 1]) + GetScore(penalty, results[|results| - 1])
  }

  /**
   Without penalty the score is the number of guessed words; with penalty,
   guessed minus missed.
   */
  lemma {:induction false} CalcScoreCounts(penalty: bool, results: seq<bool>)
    ensures CalcScore(penalty, results) ==
      multiset(results)[true] as int - (if penalty then multiset(results)[false] else 0)
    decreases |results|
  {
    if |results| > 0 {
      var n := |results| - 1;
      CalcScoreCounts(penalty, results[..n]);
      assert results == results[..n] + [results[n]];
      assert multiset(results) == multiset(results[..n]) + multiset{results[n]};
    }
  }

  /** The score does not depend on the order of the outcomes. */
  lemma CalcScorePermutation(penalty: bool, a: seq<bool>, b: seq<bool>)
    requires multiset(a) == multiset(b)
    ensures CalcScore(penalty, a) == CalcScore(penalty, b)
  {
    CalcScoreCounts(penalty, a);
    CalcScoreCounts(penalty, b);
  }

  /** The outcomes of a round's batch. */
  function BatchOutcomes(batch: seq<(int, bool)>): (r: seq<bool>)
    ensures |r| == |batch|
    ensures forall i :: 0 <= i < |batch| ==> r[i] == batch[i].1
  {
    seq(|batch|, i requires 0 <= i < |batch| => batch[i].1)
  }

  /**
   The key `get_hightest_score_team_result` ranks a seat by: its stored score,
   plus the batch's score when the seat belongs to the acting team.
   */
  function RoundScore(penalty: bool, batch: seq<(int, bool)>, teamId: int, seat: (TeamResult, seq<WordResult>)): int {
    CalcScore(penalty, Outcomes(seat.1)) + (if seat.0.team_id == teamId then CalcScore(penalty, BatchOutcomes(batch)) else 0)
  }

  /** Position of the winning seat: a highest score; on a tie, the last such seat. */
  function WinnerIndex(game: Game, trw: TeamResultsWords, batch: seq<(int, bool)>, teamId: int): (w: nat)
    requires |trw| > 0
    ensures w < |trw|
    ensures forall j :: 0 <= j < |trw| ==>
      RoundScore(game.penalty, batch, teamId, trw[j]) <= RoundScore(game.penalty, batch, teamId, trw[w])
    ensures forall j :: w < j < |trw| ==>
      RoundScore(game.penalty, batch, teamId, trw[j]) < RoundScore(game.penalty, batch, teamId, trw[w])
  {
    MaxIndexByKey(trw, seat => RoundScore(game.penalty, batch, teamId, seat))
  }

  /** `get_hightest_score_team_result`. */
  function HighestScoreTeamResult(game: Game, trw: TeamResultsWords, batch: seq<(int, bool)>, teamId: int): (tr: TeamResult)
    requires |trw| > 0
    ensures tr == trw[WinnerIndex(game, trw, batch, teamId)].0
  {
    trw[WinnerIndex(game, trw, batch, teamId)].0
  }

  /** The word results minted for a batch, all booked to the acting seat. */
  function NewWordResults(batch: seq<(int, bool)>, seatId: int): (wrs: seq<WordResult>)
    ensures |wrs| == |batch|
    ensures forall i :: 0 <= i < |batch| ==> wrs[i] == WordResult(-1, batch[i].1, i, batch[i].0, seatId)
  {
    seq(|batch|, i requires 0 <= i < |batch| => WordResult(-1, batch[i].1, i, batch[i].0, seatId))
  }

  /**
   `complete_round`. The gate fails with the first failing check, in the order
   token, active state, expiry, word budget. A round that fills the budget
   exactly ends the game and names the winner; otherwise only the turn moves
   on. One word result per batch entry is minted for the acting seat.
   */
  function CompleteRound(game: Game, trw: TeamResultsWords, batch: seq<(int, bool)>, token: string, now: int)
    : (r: VortoResult<(Game, seq<WordResult>)>)
    requires PassesGate(game, token, now) ==> |trw| > 0
    ensures game.token != token ==> r == Err(TokenError)
    ensures game.token == token && game.state != "active" ==> r == Err(ActiveError)
    ensures game.token == token && game.state == "active" && game.expired_at < now ==> r == Err(ExpiredError(game))
    ensures PassesGate(game, token, now) && GameWordCount(trw) + |batch| > AsUsize(game.word_count) ==>
      r == Err(TooManyWordsError)
    ensures r.Ok? <==> PassesGate(game, token, now) && GameWordCount(trw) + |batch| <= AsUsize(game.word_count)
    ensures r.Ok? && GameWordCount(trw) + |batch| < AsUsize(game.word_count) ==>
      r.value.0 == game.(turn := WrappingInc(game.turn))
    ensures r.Ok? && GameWordCount(trw) + |batch| == AsUsize(game.word_count) ==>
      var winner := trw[WinnerIndex(game, trw, batch, CurrentTeamResult(game, trw).team_id)].0;
      r.value.0 == game.(state := GameStateToString(Ended), winner_id := Some(winner.id))
    ensures r.Ok? ==>
      var seat := CurrentTeamResult(game, trw);
      |r.value.1| == |batch| &&
      forall i :: 0 <= i < |batch| ==> r.value.1[i] == WordResult(-1, batch[i].1, i, batch[i].0, seat.id)
  {
    var _ :- ValidateToken(game, token);
    var _ :- ValidateActive(game);
    var _ :- ValidateExpired(game, now);
    var current := CurrentTeamResult(game, trw);
    var _ :- ValidateWordsCount(game, trw, batch);
    var isGameOver := AsUsize(game.word_count) == GameWordCount(trw) + |batch|;
    var newGame :=
      if isGameOver then
        var highest := HighestScoreTeamResult(game, trw, batch, current.team_id);
        game.(winner_id := Some(highest.id), state := GameStateToString(Ended))
      else
        game.(turn := WrappingInc(game.turn));
    Ok((newGame, NewWordResults(batch, current.id)))
  }

  /** A game fresh from `NewGame` accepts its own token until it expires ten hours later. */
  lemma NewGamePlayable(
    id: int, wordCount: I32, penalty: bool, roundTime: int, teams: seq<Team>, now: int, token: string, later: int)
    requires NewGame(id, wordCount, penalty, roundTime, teams, now, token).Ok?
    requires later <= now + EXPIRED_SECONDS
    ensures PassesGate(NewGame(id, wordCount, penalty, roundTime, teams, now, token).value.0, token, later)
  {
  }

  /** An ended game refuses every further round: the state never returns to active. */
  lemma {:induction false} EndedGameIsFinal(
    game: Game, trw: TeamResultsWords, batch: seq<(int, bool)>, token: string, now: int,
    trw2: TeamResultsWords, batch2: seq<(int, bool)>, token2: string, now2: int)
    requires PassesGate(game, token, now) ==> |trw| > 0
    requires CompleteRound(game, trw, batch, token, now).Ok?
    requires GameWordCount(trw) + |batch| == AsUsize(game.word_count)
    ensures CompleteRound(game, trw, batch, token, now).value.0.winner_id.Some?
    ensures CompleteRound(CompleteRound(game, trw, batch, token, now).value.0, trw2, batch2, token2, now2).Err?
  {
    var r := CompleteRound(game, trw, batch, token, now);
    var seat := CurrentTeamResult(game, trw);
    var winner := trw[WinnerIndex(game, trw, batch, seat.team_id)].0;
    assert r.value.0 == game.(state := GameStateToString(Ended), winner_id := Some(winner.id));
    EndedGameRefuses(r.value.0, trw2, batch2, token2, now2);
  }

  /** A game whose state is "ended" refuses a round with whatever token, clock and batch. */
  lemma EndedGameRefuses(game: Game, trw: TeamResultsWords, batch: seq<(int, bool)>, token: string, now: int)
    requires game.state == GameStateToString(Ended)
    ensures CompleteRound(game, trw, batch, token, now).Err?
  {
    assert !PassesGate(game, token, now);
  }

  /**
   A round that does not end the game hands the turn to the next seat of the
   cycle (while the turn counter does not overflow).
   */
  lemma {:induction false} NextRoundNextSeat(
    game: Game, trw: TeamResultsWords, batch: seq<(int, bool)>, token: string, now: int, next: Game)
    requires |trw| > 0 && 0 <= game.turn < I32_MAX
    requires CompleteRound(game, trw, batch, token, now).Ok?
    requires CompleteRound(game, trw, batch, token, now).value.0 == next
    requires GameWordCount(trw) + |batch| < AsUsize(game.word_count)
    ensures CurrentTeamResult(next, trw) == trw[(game.turn + 1) % |trw|].0
  {
    assert next == game.(turn := WrappingInc(game.turn));
    assert WrappingInc(game.turn) == game.turn + 1;
    SeatAfterTurn(game, trw, next);
  }

  lemma SeatAfterTurn(game: Game, trw: TeamResultsWords, next: Game)
    requires |trw| > 0 && 0 <= game.turn < I32_MAX
    requires next.turn == game.turn + 1
    ensures CurrentTeamResult(next, trw) == trw[(game.turn + 1) % |trw|].0
  {
  }

  /** Booked words never exceed the game's word budget. */
  lemma WordBudgetKept(game: Game, trw: TeamResultsWords, batch: seq<(int, bool)>, token: string, now: int)
    requires PassesGate(game, token, now) ==> |trw| > 0
    requires CompleteRound(game, trw, batch, token, now).Ok?
    ensures GameWordCount(trw) + |CompleteRound(game, trw, batch, token, now).value.1| <= AsUsize(game.word_count)
  {
  }
}
