/**
 The game view: the rows of the joined game query are folded into the
 scalar game fields, one entry per team result (with its word results), and
 the winner's entry. Scores are computed from the collected word results;
 word results are ordered by their round position and team results by score,
 highest first.

 The team-result map of the program is a `HashMap`, whose iteration order is
 not specified. Its finished entries are therefore a parameter, `mapValues`,
 which may be any reordering of `FinishedTeams(rows)`; every property below
 holds for all of them.
 */
module GameViews {

  import opened Seqs
  import opened Error
  import opened Games
  import opened Responses

  /** The columns of an outer-joined word result and its word; all present or all absent. */
  datatype WordCols = WordCols(
    id: int, result: bool, word_id: int, team_result_id: int, order: int, w_id: int, w_body: string)

  /** The columns of the outer-joined winning team result and its team. */
  datatype WinnerCols = WinnerCols(tr_id: int, tr_team_id: int, t_id: int, t_name: string)

  /** One row of the game query. */
  datatype GameRow = GameRow(
    id: int,
    state: string,
    created_at: int,
    expired_at: int,
    word_count: int,
    penalty: bool,
    round_time: int,
    turn: int,
    token: string,
    tr_id: int,
    t_id: int,
    t_name: string,
    wr: Option<WordCols>,
    winner_tr: Option<WinnerCols>,
    winner_wr: Option<WordCols>)

  /** The error of `game_not_found`: NotFound, with the text "Game not found". */
  function GameNotFoundError(): (e: VortoError)
    ensures CodeOfValue(e.code) == Some(NotFound)
    ensures |e.message| >= TagLength(NotFound)
    ensures e.message[TagLength(NotFound)..] == "Game not found"
  {
    NewError(NotFound, "Game not found")
  }

  /** `game_not_found`. */
  function GameNotFound<T>(): VortoResult<T> {
    Err(GameNotFoundError())
  }

  function WordResultView(c: WordCols): GameWordResultView {
    GameWordResultView(c.result, c.order, GameWordView(c.w_id, c.w_body))
  }

  /** The map entry a word-result row contributes: keyed by the word result's id. */
  function WordEntry(c: WordCols): (int, GameWordResultView) {
    (c.id, WordResultView(c))
  }

  /** One entry of the team-result map, before scoring. */
  datatype TeamSlot = TeamSlot(id: int, team: TeamView, entries: seq<(int, GameWordResultView)>)

  /** The loop state: the first winner seen (with its row), the winner's word results, the team results. */
  datatype Acc = Acc(
    winner: Option<(WinnerCols, GameRow)>,
    winnerEntries: seq<(int, GameWordResultView)>,
    slots: seq<TeamSlot>)

  /** Position of the entry for team result `id`, or the number of entries when there is none. */
  function TeamSlotIndex(slots: seq<TeamSlot>, id: int): (i: nat)
    ensures i <= |slots|
    ensures i < |slots| ==> slots[i].id == id
    ensures forall k :: 0 <= k < i ==> slots[k].id != id
  {
    if |slots| == 0 then 0
    else if slots[0].id == id then 0
    else 1 + TeamSlotIndex(slots[1..], id)
  }

  /** `team_results.entry(row.tr_id).or_insert(..)`. */
  function EnsureSlot(slots: seq<TeamSlot>, row: GameRow): seq<TeamSlot> {
    if TeamSlotIndex(slots, row.tr_id) < |slots| then slots
    else slots + [TeamSlot(row.tr_id, TeamView(row.t_id, row.t_name), [])]
  }

  /** `get_mut(wr_team_result_id)`: the word result joins an existing entry, or is dropped. */
  function AddWordResult(slots: seq<TeamSlot>, c: WordCols): seq<TeamSlot> {
    var j := TeamSlotIndex(slots, c.team_result_id);
    if j < |slots| then slots[j := slots[j].(entries := OrInsert(slots[j].entries, c.id, WordResultView(c)))]
    else slots
  }

  /** The winner is taken from the first row that names one. */
  function StepWinner(winner: Option<(WinnerCols, GameRow)>, row: GameRow): Option<(WinnerCols, GameRow)> {
    if winner.None? && row.winner_tr.Some? then Some((row.winner_tr.value, row)) else winner
  }

  /** `winner_word_results.entry(winner_wr_id).or_insert(..)`. */
  function StepWinnerEntries(entries: seq<(int, GameWordResultView)>, row: GameRow): seq<(int, GameWordResultView)> {
    match row.winner_wr
    case Some(c) => OrInsert(entries, c.id, WordResultView(c))
    case None => entries
  }

  function StepSlots(slots: seq<TeamSlot>, row: GameRow): seq<TeamSlot> {
    var slots' := EnsureSlot(slots, row);
    match row.wr
    case Some(c) => AddWordResult(slots', c)
    case None => slots'
  }

  /** One iteration of the loop over the rows. */
  function Step(acc: Acc, row: GameRow): Acc {
    Acc(StepWinner(acc.winner, row), StepWinnerEntries(acc.winnerEntries, row), StepSlots(acc.slots, row))
  }

  function Fold(rows: seq<GameRow>): Acc
    decreases |rows|
  {
    if |rows| == 0 then Acc(None, [], [])
    else Step(Fold(rows[..|rows| - 1]), rows[|rows| - 1])
  }

  // ---------------------------------------------------------------------------
  // What the fold collects, stated independently of it

  function RowTrId(row: GameRow): int {
    row.tr_id
  }

  predicate HasWinner(rows: seq<GameRow>) {
    exists i :: 0 <= i < |rows| && rows[i].winner_tr.Some?
  }

  /** The first row that names a winning team result. */
  function FirstWinnerIndex(rows: seq<GameRow>): (k: nat)
    requires HasWinner(rows)
    ensures k < |rows| && rows[k].winner_tr.Some?
    ensures forall j :: 0 <= j < k ==> rows[j].winner_tr.None?
  {
    if rows[0].winner_tr.Some? then 0
    else
      assert HasWinner(rows[1..]) by {
        var i :| 0 <= i < |rows| && rows[i].winner_tr.Some?;
        assert rows[1..][i - 1] == rows[i];
      }
      1 + FirstWinnerIndex(rows[1..])
  }

  /** The winner's word-result columns of all rows, in row order. */
  function WinnerWordCols(rows: seq<GameRow>): seq<WordCols>
    decreases |rows|
  {
    if |rows| == 0 then []
    else
      var row := rows[|rows| - 1];
      WinnerWordCols(rows[..|rows| - 1]) + (if row.winner_wr.Some? then [row.winner_wr.value] else [])
  }

  /**
   The word-result columns that reach team result `id`: rows whose word
   result names `id`, once a row for `id` has been seen (at or before that row).
   */
  function Eligible(rows: seq<GameRow>, id: int): seq<WordCols>
    decreases |rows|
  {
    if |rows| == 0 then []
    else
      var row := rows[|rows| - 1];
      Eligible(rows[..|rows| - 1], id) +
        (if row.wr.Some? && row.wr.value.team_result_id == id && id in MapSeq(rows, RowTrId)
         then [row.wr.value] else [])
  }

  /** The entries of team result `id`: the first word-result row per word-result id. */
  function EntriesFor(rows: seq<GameRow>, id: int): seq<(int, GameWordResultView)> {
    UniqueBy(MapSeq(Eligible(rows, id), WordEntry), EntryKey)
  }

  // ---------------------------------------------------------------------------
  // The fold agrees with the description

  /** The first winner row is the only row with a winner and none before it. */
  lemma FirstWinnerUnique(rows: seq<GameRow>, k: nat)
    requires k < |rows| && rows[k].winner_tr.Some?
    requires forall j :: 0 <= j < k ==> rows[j].winner_tr.None?
    ensures HasWinner(rows) && FirstWinnerIndex(rows) == k
  {
    assert HasWinner(rows);
    var f := FirstWinnerIndex(rows);
    assert !(f < k) && !(k < f);
  }

  lemma {:induction false} FoldWinner(rows: seq<GameRow>)
    ensures Fold(rows).winner.Some? <==> HasWinner(rows)
    ensures HasWinner(rows) ==>
      Fold(rows).winner == Some((rows[FirstWinnerIndex(rows)].winner_tr.value, rows[FirstWinnerIndex(rows)]))
    decreases |rows|
  {
    if |rows| > 0 {
      var n := |rows| - 1;
      var pre := rows[..n];
      var row := rows[n];
      FoldWinner(pre);
      var prev := Fold(pre).winner;
      assert Fold(rows).winner == StepWinner(prev, row);
      if HasWinner(pre) {
        var k := FirstWinnerIndex(pre);
        assert pre[k] == rows[k];
        assert forall j :: 0 <= j < k ==> pre[j] == rows[j];
        FirstWinnerUnique(rows, k);
      } else {
        assert forall j :: 0 <= j < n ==> pre[j] == rows[j] && rows[j].winner_tr.None?;
        if row.winner_tr.Some? {
          FirstWinnerUnique(rows, n);
        } else {
          assert !HasWinner(rows);
        }
      }
    }
  }

  lemma {:induction false} FoldWinnerEntries(rows: seq<GameRow>)
    ensures Fold(rows).winnerEntries == UniqueBy(MapSeq(WinnerWordCols(rows), WordEntry), EntryKey)
    decreases |rows|
  {
    if |rows| > 0 {
      var n := |rows| - 1;
      var pre := rows[..n];
      var row := rows[n];
      FoldWinnerEntries(pre);
      var prevCols := WinnerWordCols(pre);
      var prevPairs := MapSeq(prevCols, WordEntry);
      assert Fold(rows).winnerEntries == StepWinnerEntries(Fold(pre).winnerEntries, row);
      match row.winner_wr
      case Some(c) =>
        assert WinnerWordCols(rows) == prevCols + [c];
        MapSeqSnoc(prevCols, c, WordEntry);
        OrInsertIsUniqueBy(prevPairs, c.id, WordResultView(c));
      case None =>
        assert WinnerWordCols(rows) == prevCols;
    }
  }

  /** The entries `slots` match the team results first seen in `firsts`, with word results from `source`. */
  ghost predicate SlotsMatch(source: seq<GameRow>, firsts: seq<GameRow>, slots: seq<TeamSlot>) {
    |slots| == |firsts| &&
    forall i :: 0 <= i < |slots| ==>
      slots[i].id == firsts[i].tr_id &&
      slots[i].team == TeamView(firsts[i].t_id, firsts[i].t_name) &&
      slots[i].entries == EntriesFor(source, slots[i].id)
  }

  /** A team result that has no row yet has no word results. */
  lemma {:induction false} EligibleAbsent(rows: seq<GameRow>, id: int)
    requires id !in MapSeq(rows, RowTrId)
    ensures Eligible(rows, id) == []
    decreases |rows|
  {
    if |rows| > 0 {
      var n := |rows| - 1;
      assert MapSeq(rows[..n], RowTrId) == MapSeq(rows, RowTrId)[..n];
      EligibleAbsent(rows[..n], id);
    }
  }

  /** Entering a row's team result keeps the entries in step with the first rows per team result. */
  lemma {:induction false} EnsureSlotMatches(rows: seq<GameRow>, firsts: seq<GameRow>, slots: seq<TeamSlot>)
    requires |rows| > 0
    requires SlotsMatch(rows[..|rows| - 1], firsts, slots)
    requires MapSeq(firsts, RowTrId) == MapSeq(slots, (s: TeamSlot) => s.id)
    requires forall i :: 0 <= i < |rows| - 1 ==> rows[i].tr_id in MapSeq(firsts, RowTrId)
    ensures var row := rows[|rows| - 1];
      var firsts' := if row.tr_id in MapSeq(firsts, RowTrId) then firsts else firsts + [row];
      SlotsMatch(rows[..|rows| - 1], firsts', EnsureSlot(slots, row))
  {
    var n := |rows| - 1;
    var pre := rows[..n];
    var row := rows[n];
    var i := TeamSlotIndex(slots, row.tr_id);
    if i < |slots| {
      assert MapSeq(firsts, RowTrId)[i] == row.tr_id;
    } else {
      assert row.tr_id !in MapSeq(firsts, RowTrId) by {
        forall k | 0 <= k < |firsts|
          ensures MapSeq(firsts, RowTrId)[k] != row.tr_id
        {
          assert MapSeq(slots, (s: TeamSlot) => s.id)[k] == slots[k].id;
        }
      }
      assert row.tr_id !in MapSeq(pre, RowTrId) by {
        forall k | 0 <= k < n
          ensures MapSeq(pre, RowTrId)[k] != row.tr_id
        {
          assert pre[k] == rows[k];
        }
      }
      EligibleAbsent(pre, row.tr_id);
      var slots' := EnsureSlot(slots, row);
      var firsts' := firsts + [row];
      forall j | 0 <= j < |slots'|
        ensures slots'[j].id == firsts'[j].tr_id
        ensures slots'[j].team == TeamView(firsts'[j].t_id, firsts'[j].t_name)
        ensures slots'[j].entries == EntriesFor(pre, slots'[j].id)
      {
        if j < |slots| {
          assert slots'[j] == slots[j] && firsts'[j] == firsts[j];
        }
      }
    }
  }

  /** Adding a row's word result keeps every entry in step with the rows seen so far. */
  lemma AddWordMatches(rows: seq<GameRow>, firsts: seq<GameRow>, slots: seq<TeamSlot>)
    requires |rows| > 0
    requires SlotsMatch(rows[..|rows| - 1], firsts, slots)
    requires Distinct(MapSeq(firsts, RowTrId))
    requires MapSeq(firsts, RowTrId) == MapSeq(slots, (s: TeamSlot) => s.id)
    requires forall i :: 0 <= i < |firsts| ==> firsts[i].tr_id in MapSeq(rows, RowTrId)
    ensures var row := rows[|rows| - 1];
      SlotsMatch(rows, firsts, match row.wr case Some(c) => AddWordResult(slots, c) case None => slots)
  {
    var n := |rows| - 1;
    var pre := rows[..n];
    var row := rows[n];
    var ids := MapSeq(slots, (s: TeamSlot) => s.id);
    match row.wr
    case None =>
      forall j | 0 <= j < |slots|
        ensures slots[j].entries == EntriesFor(rows, slots[j].id)
      {
        var id := slots[j].id;
        assert Eligible(rows, id) == Eligible(pre, id);
      }
    case Some(c) =>
      AddWordMatchesSome(rows, firsts, slots, c);
  }

  lemma AddWordMatchesSome(rows: seq<GameRow>, firsts: seq<GameRow>, slots: seq<TeamSlot>, c: WordCols)
    requires |rows| > 0 && rows[|rows| - 1].wr == Some(c)
    requires SlotsMatch(rows[..|rows| - 1], firsts, slots)
    requires Distinct(MapSeq(firsts, RowTrId))
    requires MapSeq(firsts, RowTrId) == MapSeq(slots, (s: TeamSlot) => s.id)
    requires forall i :: 0 <= i < |firsts| ==> firsts[i].tr_id in MapSeq(rows, RowTrId)
    ensures SlotsMatch(rows, firsts, AddWordResult(slots, c))
  {
    var slots' := AddWordResult(slots, c);
    assert |slots'| == |slots|;
    forall j | 0 <= j < |slots'|
      ensures slots'[j].id == firsts[j].tr_id
      ensures slots'[j].team == TeamView(firsts[j].t_id, firsts[j].t_name)
      ensures slots'[j].entries == EntriesFor(rows, slots'[j].id)
    {
      AddWordMatchesAt(rows, firsts, slots, c, j);
    }
  }

  /** One slot of `AddWordMatches`: the slot the word result joins, or one it leaves alone. */
  lemma AddWordMatchesAt(rows: seq<GameRow>, firsts: seq<GameRow>, slots: seq<TeamSlot>, c: WordCols, j: nat)
    requires |rows| > 0 && rows[|rows| - 1].wr == Some(c)
    requires SlotsMatch(rows[..|rows| - 1], firsts, slots)
    requires Distinct(MapSeq(firsts, RowTrId))
    requires MapSeq(firsts, RowTrId) == MapSeq(slots, (s: TeamSlot) => s.id)
    requires forall i :: 0 <= i < |firsts| ==> firsts[i].tr_id in MapSeq(rows, RowTrId)
    requires j < |slots|
    ensures var slots' := AddWordResult(slots, c);
      slots'[j].id == firsts[j].tr_id &&
      slots'[j].team == TeamView(firsts[j].t_id, firsts[j].t_name) &&
      slots'[j].entries == EntriesFor(rows, slots'[j].id)
  {
    var n := |rows| - 1;
    var pre := rows[..n];
    var ids := MapSeq(slots, (s: TeamSlot) => s.id);
    var slots' := AddWordResult(slots, c);
    var t := TeamSlotIndex(slots, c.team_result_id);
    var id := slots[j].id;
    assert id in MapSeq(rows, RowTrId) by {
      assert ids[j] == MapSeq(firsts, RowTrId)[j];
    }
    if t == j {
      assert Eligible(rows, id) == Eligible(pre, id) + [c];
      MapSeqSnoc(Eligible(pre, id), c, WordEntry);
      OrInsertIsUniqueBy(MapSeq(Eligible(pre, id), WordEntry), c.id, WordResultView(c));
    } else {
      assert slots'[j] == slots[j];
      assert c.team_result_id != id by {
        if t < |slots| {
          assert ids[t] == c.team_result_id && ids[j] == id;
          assert MapSeq(firsts, RowTrId)[t] == ids[t] && MapSeq(firsts, RowTrId)[j] == ids[j];
        }
      }
      assert Eligible(rows, id) == Eligible(pre, id);
    }
  }

  /** The team-result ids of the slots after entering a row's team result. */
  lemma EnsureSlotIds(firsts: seq<GameRow>, slots: seq<TeamSlot>, row: GameRow)
    requires MapSeq(firsts, RowTrId) == MapSeq(slots, (s: TeamSlot) => s.id)
    ensures var firsts' := if row.tr_id in MapSeq(firsts, RowTrId) then firsts else firsts + [row];
      MapSeq(firsts', RowTrId) == MapSeq(EnsureSlot(slots, row), (s: TeamSlot) => s.id)
  {
    var t := TeamSlotIndex(slots, row.tr_id);
    if row.tr_id !in MapSeq(firsts, RowTrId) {
      forall k | 0 <= k < |slots|
        ensures slots[k].id != row.tr_id
      {
        assert MapSeq(firsts, RowTrId)[k] == MapSeq(slots, (s: TeamSlot) => s.id)[k];
      }
      assert t == |slots|;
      MapSeqSnoc(firsts, row, RowTrId);
      MapSeqSnoc(slots, TeamSlot(row.tr_id, TeamView(row.t_id, row.t_name), []), (s: TeamSlot) => s.id);
    }
  }

  /** Adding a word result leaves the team-result ids of the slots as they are. */
  lemma AddWordResultIds(slots: seq<TeamSlot>, c: WordCols)
    ensures MapSeq(AddWordResult(slots, c), (s: TeamSlot) => s.id) == MapSeq(slots, (s: TeamSlot) => s.id)
  {
  }

  /** Every first row per team result names a team result of the rows. */
  lemma FirstsSeen(rows: seq<GameRow>)
    ensures forall i :: 0 <= i < |UniqueBy(rows, RowTrId)| ==>
      UniqueBy(rows, RowTrId)[i].tr_id in MapSeq(rows, RowTrId)
  {
    var firsts := UniqueBy(rows, RowTrId);
    forall i | 0 <= i < |firsts|
      ensures firsts[i].tr_id in MapSeq(rows, RowTrId)
    {
      MapSeqMember(rows, firsts[i], RowTrId);
    }
  }

  lemma {:induction false} FoldSlots(rows: seq<GameRow>)
    ensures SlotsMatch(rows, UniqueBy(rows, RowTrId), Fold(rows).slots)
    ensures MapSeq(UniqueBy(rows, RowTrId), RowTrId) == MapSeq(Fold(rows).slots, (s: TeamSlot) => s.id)
    decreases |rows|
  {
    if |rows| > 0 {
      var n := |rows| - 1;
      var pre := rows[..n];
      var row := rows[n];
      var firsts := UniqueBy(pre, RowTrId);
      var slots := Fold(pre).slots;
      FoldSlots(pre);
      assert Fold(rows).slots == StepSlots(slots, row);
      FoldSlotsStep(rows, firsts, slots);
    }
  }

  /** One row of the fold keeps the slots in step with the first rows per team result. */
  lemma {:induction false} FoldSlotsStep(rows: seq<GameRow>, firsts: seq<GameRow>, slots: seq<TeamSlot>)
    requires |rows| > 0 && firsts == UniqueBy(rows[..|rows| - 1], RowTrId)
    requires SlotsMatch(rows[..|rows| - 1], firsts, slots)
    requires MapSeq(firsts, RowTrId) == MapSeq(slots, (s: TeamSlot) => s.id)
    ensures SlotsMatch(rows, UniqueBy(rows, RowTrId), StepSlots(slots, rows[|rows| - 1]))
    ensures MapSeq(UniqueBy(rows, RowTrId), RowTrId) ==
      MapSeq(StepSlots(slots, rows[|rows| - 1]), (s: TeamSlot) => s.id)
  {
    var row := rows[|rows| - 1];
    var firsts' := UniqueBy(rows, RowTrId);
    var slots1 := EnsureSlot(slots, row);
    FoldSlotsEnsure(rows, firsts, slots);
    FirstsSeen(rows);
    AddWordMatches(rows, firsts', slots1);
    match row.wr
    case Some(c) =>
      assert StepSlots(slots, row) == AddWordResult(slots1, c);
      AddWordResultIds(slots1, c);
    case None =>
      assert StepSlots(slots, row) == slots1;
  }

  /** Making room for the row's team result keeps the slots in step with the new first rows. */
  lemma {:induction false} FoldSlotsEnsure(rows: seq<GameRow>, firsts: seq<GameRow>, slots: seq<TeamSlot>)
    requires |rows| > 0 && firsts == UniqueBy(rows[..|rows| - 1], RowTrId)
    requires SlotsMatch(rows[..|rows| - 1], firsts, slots)
    requires MapSeq(firsts, RowTrId) == MapSeq(slots, (s: TeamSlot) => s.id)
    ensures SlotsMatch(rows[..|rows| - 1], UniqueBy(rows, RowTrId), EnsureSlot(slots, rows[|rows| - 1]))
    ensures MapSeq(UniqueBy(rows, RowTrId), RowTrId) ==
      MapSeq(EnsureSlot(slots, rows[|rows| - 1]), (s: TeamSlot) => s.id)
  {
    var n := |rows| - 1;
    var pre := rows[..n];
    var row := rows[n];
    assert forall i :: 0 <= i < n ==> rows[i].tr_id in MapSeq(firsts, RowTrId) by {
      forall i | 0 <= i < n
        ensures rows[i].tr_id in MapSeq(firsts, RowTrId)
      {
        assert pre[i] == rows[i];
      }
    }
    EnsureSlotMatches(rows, firsts, slots);
    EnsureSlotIds(firsts, slots, row);
    assert UniqueBy(rows, RowTrId) == if row.tr_id in MapSeq(firsts, RowTrId) then firsts else firsts + [row];
  }

  // ---------------------------------------------------------------------------
  // Finishing the entries and building the view

  function ViewResult(w: GameWordResultView): bool {
    w.result
  }

  function ViewOrder(w: GameWordResultView): int {
    w.order
  }

  /** Sort key for "score descending". */
  function NegScore(t: GameTeamResultView): int {
    -t.score
  }

  /** Scores the collected word results and orders them by position. */
  function FinishEntries(id: int, team: TeamView, entries: seq<(int, GameWordResultView)>, penalty: bool)
    : (t: GameTeamResultView)
    ensures t.id == id && t.team == team
    ensures SortedBy(t.word_results, ViewOrder)
    ensures multiset(t.word_results) == multiset(MapSeq(entries, EntryValue))
    ensures t.score == CalcScore(penalty, MapSeq(t.word_results, ViewResult))
  {
    var values := MapSeq(entries, EntryValue);
    var sorted := SortBy(values, ViewOrder);
    MultisetMapSeq(values, sorted, ViewResult);
    CalcScorePermutation(penalty, MapSeq(values, ViewResult), MapSeq(sorted, ViewResult));
    GameTeamResultView(id, CalcScore(penalty, MapSeq(values, ViewResult)), team, sorted)
  }

  function FinishSlot(slot: TeamSlot, penalty: bool): GameTeamResultView {
    FinishEntries(slot.id, slot.team, slot.entries, penalty)
  }

  /** The finished entries of the team-result map, in first-appearance order. */
  function FinishedTeams(rows: seq<GameRow>): (ts: seq<GameTeamResultView>)
    requires |rows| > 0
  {
    var penalty := rows[0].penalty;
    MapSeq(Fold(rows).slots, (s: TeamSlot) => FinishSlot(s, penalty))
  }

  /**
   One finished entry per team result of the rows, in first-appearance order:
   its id, the team of the first row for it, its word results (the first row
   per word-result id, ordered by position) and their score.
   */
  lemma {:induction false} FinishedTeamsSpec(rows: seq<GameRow>)
    requires |rows| > 0
    ensures var firsts := UniqueBy(rows, RowTrId);
      var ts := FinishedTeams(rows);
      |ts| == |firsts| &&
      forall i :: 0 <= i < |ts| ==>
        ts[i].id == firsts[i].tr_id &&
        ts[i].team == TeamView(firsts[i].t_id, firsts[i].t_name) &&
        SortedBy(ts[i].word_results, ViewOrder) &&
        multiset(ts[i].word_results) == multiset(MapSeq(EntriesFor(rows, ts[i].id), EntryValue)) &&
        ts[i].score == CalcScore(rows[0].penalty, MapSeq(ts[i].word_results, ViewResult))
  {
    FoldSlots(rows);
  }

  /** Every team result of the rows has exactly one finished entry. */
  lemma FinishedTeamsOnePerTeamResult(rows: seq<GameRow>)
    requires |rows| > 0
    ensures Distinct(MapSeq(FinishedTeams(rows), (t: GameTeamResultView) => t.id))
    ensures forall i :: 0 <= i < |rows| ==>
      rows[i].tr_id in MapSeq(FinishedTeams(rows), (t: GameTeamResultView) => t.id)
  {
    FinishedTeamsSpec(rows);
    var firsts := UniqueBy(rows, RowTrId);
    var ids := MapSeq(FinishedTeams(rows), (t: GameTeamResultView) => t.id);
    assert ids == MapSeq(firsts, RowTrId);
  }

  /** How the winner's entry takes its team from the row that first names the winner. */
  type WinnerTeamFn = (WinnerCols, GameRow) -> TeamView

  /** The team of the winning team result, from the winner columns. */
  function WinnerTeam(w: WinnerCols, row: GameRow): TeamView {
    TeamView(w.t_id, w.t_name)
  }

  /** As the program reads it: the team of the row's own team result. */
  function RowTeam(w: WinnerCols, row: GameRow): TeamView {
    TeamView(row.t_id, row.t_name)
  }

  function WinnerView(rows: seq<GameRow>, team: WinnerTeamFn): Option<GameTeamResultView>
    requires |rows| > 0
  {
    var acc := Fold(rows);
    match acc.winner
    case None => None
    case Some((w, row)) => Some(FinishEntries(w.tr_id, team(w, row), acc.winnerEntries, rows[0].penalty))
  }

  /** The view, with the winner's team chosen by `team`. */
  function GameViewWith(rows: seq<GameRow>, mapValues: seq<GameTeamResultView>, team: WinnerTeamFn)
    : VortoResult<GameView>
    requires |rows| > 0 ==> multiset(mapValues) == multiset(FinishedTeams(rows))
  {
    if |rows| == 0 then GameNotFound()
    else
      var first := rows[0];
      Ok(GameView(first.id, first.penalty, first.state, first.token, first.turn, first.word_count,
                  first.round_time, SortBy(mapValues, NegScore), WinnerView(rows, team),
                  first.created_at, first.expired_at))
  }

  /** Properties of the view shared by both ways of picking the winner's team. */
  ghost predicate ViewFacts(rows: seq<GameRow>, r: VortoResult<GameView>) {
    (|rows| == 0 ==> r == GameNotFound()) &&
    (|rows| > 0 ==>
      r.Ok? &&
      var v := r.value;
      var first := rows[0];
      v.id == first.id && v.penalty == first.penalty && v.state == first.state && v.token == first.token &&
      v.turn == first.turn && v.word_count == first.word_count && v.round_time == first.round_time &&
      v.created_at == first.created_at && v.expired_at == first.expired_at &&
      multiset(v.team_results) == multiset(FinishedTeams(rows)) &&
      SortedBy(v.team_results, NegScore) &&
      (v.winner.Some? <==> HasWinner(rows)) &&
      (v.winner.Some? ==>
        var wv := v.winner.value;
        wv.id == rows[FirstWinnerIndex(rows)].winner_tr.value.tr_id &&
        SortedBy(wv.word_results, ViewOrder) &&
        multiset(wv.word_results) ==
          multiset(MapSeq(UniqueBy(MapSeq(WinnerWordCols(rows), WordEntry), EntryKey), EntryValue)) &&
        wv.score == CalcScore(first.penalty, MapSeq(wv.word_results, ViewResult))))
  }

  lemma GameViewWithFacts(rows: seq<GameRow>, mapValues: seq<GameTeamResultView>, team: WinnerTeamFn)
    requires |rows| > 0 ==> multiset(mapValues) == multiset(FinishedTeams(rows))
    ensures ViewFacts(rows, GameViewWith(rows, mapValues, team))
  {
    if |rows| > 0 {
      FoldWinner(rows);
      FoldWinnerEntries(rows);
    }
  }

  /**
   `game_view` after the query, as the program has it: the winner's team is
   read from the regular team columns of the first row that names a winner.
   */
  function GameViewAsWritten(rows: seq<GameRow>, mapValues: seq<GameTeamResultView>): (r: VortoResult<GameView>)
    requires |rows| > 0 ==> multiset(mapValues) == multiset(FinishedTeams(rows))
    ensures ViewFacts(rows, r)
    ensures r.Ok? && r.value.winner.Some? ==>
      var row := rows[FirstWinnerIndex(rows)];
      r.value.winner.value.team == TeamView(row.t_id, row.t_name)
  {
    GameViewWithFacts(rows, mapValues, RowTeam);
    FoldWinner(rows);
    GameViewWith(rows, mapValues, RowTeam)
  }

  /**
   A game whose first row belongs to the losing team: the program reports that
   team as the winner's team.
   */
  lemma AsWrittenWinnerTeamIsWrong()
    ensures var row := GameRow(1, "ended", 0, 36000, 2, false, 60, 1, "t", 11, 100, "A", None,
                               Some(WinnerCols(12, 200, 200, "B")), None);
      var r := GameViewAsWritten([row], FinishedTeams([row]));
      r.Ok? && r.value.winner.Some? && r.value.winner.value.id == 12 &&
      r.value.winner.value.team != TeamView(200, "B")
  {
    var row := GameRow(1, "ended", 0, 36000, 2, false, 60, 1, "t", 11, 100, "A", None,
                       Some(WinnerCols(12, 200, 200, "B")), None);
    assert HasWinner([row]) by {
      assert [row][0].winner_tr.Some?;
    }
    assert FirstWinnerIndex([row]) == 0;
  }

  /**
   `game_view` after the query, with the winner's team read from the winner
   columns: the winner entry names the team of the winning team result.
   */
  function GameViewOf(rows: seq<GameRow>, mapValues: seq<GameTeamResultView>): (r: VortoResult<GameView>)
    requires |rows| > 0 ==> multiset(mapValues) == multiset(FinishedTeams(rows))
    ensures ViewFacts(rows, r)
    ensures r.Ok? && r.value.winner.Some? ==>
      var w := rows[FirstWinnerIndex(rows)].winner_tr.value;
      r.value.winner.value.team == TeamView(w.t_id, w.t_name)
  {
    GameViewWithFacts(rows, mapValues, WinnerTeam);
    FoldWinner(rows);
    GameViewWith(rows, mapValues, WinnerTeam)
  }
}
