/**
 The pre-step the game service applies to a round request before handing it
 to the engine: entries are deduplicated by word id (the first entry of each
 word is kept) and turned into `(word_id, result)` pairs.
 */
module GameService {

  import opened Seqs
  import opened Games
  import opened WordResults

  datatype WordResultsDto = WordResultsDto(result: bool, word_id: int)

  function DtoWordId(d: WordResultsDto): int {
    d.word_id
  }

  function PairWordId(p: (int, bool)): int {
    p.0
  }

  function ToPair(d: WordResultsDto): (int, bool) {
    (d.word_id, d.result)
  }

  /** `unique_by(|wd| wd.word_id)` followed by the pair mapping. */
  function RoundBatch(items: seq<WordResultsDto>): (batch: seq<(int, bool)>)
    ensures |batch| <= |items|
    ensures Distinct(MapSeq(batch, PairWordId))
    ensures forall i :: 0 <= i < |items| ==> items[i].word_id in MapSeq(batch, PairWordId)
    ensures forall i :: 0 <= i < |batch| ==> WordResultsDto(batch[i].1, batch[i].0) in items
  {
    var firsts := UniqueBy(items, DtoWordId);
    var batch := MapSeq(firsts, ToPair);
    assert MapSeq(batch, PairWordId) == MapSeq(firsts, DtoWordId);
    assert forall i :: 0 <= i < |batch| ==> WordResultsDto(batch[i].1, batch[i].0) == firsts[i];
    batch
  }

  /** Each kept pair is the first request entry for its word. */
  lemma RoundBatchKeepsFirst(items: seq<WordResultsDto>)
    ensures forall i :: 0 <= i < |RoundBatch(items)| ==>
      var p := RoundBatch(items)[i];
      p.0 in KeysOf(items, DtoWordId) &&
      ToPair(items[IndexOf(KeysOf(items, DtoWordId), p.0)]) == p
  {
    UniqueByFirst(items, DtoWordId);
  }

  /** A booked round never books the same word twice. */
  lemma RoundBooksEachWordOnce(
    game: Game, trw: TeamResultsWords, items: seq<WordResultsDto>, token: string, now: int)
    requires PassesGate(game, token, now) ==> |trw| > 0
    requires CompleteRound(game, trw, RoundBatch(items), token, now).Ok?
    ensures var wrs := CompleteRound(game, trw, RoundBatch(items), token, now).value.1;
      forall i, j :: 0 <= i < j < |wrs| ==> wrs[i].word_id != wrs[j].word_id
  {
    var batch := RoundBatch(items);
    var wrs := CompleteRound(game, trw, batch, token, now).value.1;
    forall i, j | 0 <= i < j < |wrs|
      ensures wrs[i].word_id != wrs[j].word_id
    {
      assert wrs[i].word_id == MapSeq(batch, PairWordId)[i];
      assert wrs[j].word_id == MapSeq(batch, PairWordId)[j];
    }
  }
}
