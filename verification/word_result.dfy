/**
 The outcome of one word in one round: guessed or not, its place in the
 round, the word and the team result it is booked to. `word_result::new` is
 the datatype constructor.
 */
module WordResults {

  datatype WordResult = WordResult(id: int, result: bool, order: int, word_id: int, team_result_id: int)

  /** The outcomes of a list of word results, in order. */
  function Outcomes(wrs: seq<WordResult>): (r: seq<bool>)
    ensures |r| == |wrs|
    ensures forall i :: 0 <= i < |wrs| ==> r[i] == wrs[i].result
  {
    seq(|wrs|, i requires 0 <= i < |wrs| => wrs[i].result)
  }
}
