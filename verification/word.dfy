/**
 A word of the catalogue: its optimistic-concurrency timestamp check, the
 loading of parsed definitions, the admin update and the validated
 constructor. Clocks are passed in as integer seconds.
 */
module Words {

  import opened Seqs
  import opened Error
  import opened Text
  import opened DomainCommon
  import opened Enums
  import opened Common
  import opened WordDefinitions

  datatype Word = Word(
    id: int,
    body: string,
    status: string,
    is_edited_after_load: bool,
    load_status: string,
    difficulty: int,
    timestamp: int)

  /** A definition as the admin form submits it. */
  datatype WordDefinitionDto = WordDefinitionDto(definition: string, status: WordDefinitionStatus, voc_id: Option<int>)

  /** A vocabulary mark (an abbreviation such as "разг." and its full form). */
  datatype Voc = Voc(id: int, short: string, full: string)

  // ---------------------------------------------------------------------------
  // Body validation

  /** Longest run of characters the body pattern `.{1,255}` consumes. */
  const MAX_BODY_RUN := 255

  /** Rust's regex `.`: any character but a line feed. */
  predicate DotMatches(c: char) {
    c != '\n'
  }

  /** The run `s[i..i + n]` is matched by `.{n}`. */
  predicate DotRun(s: string, i: nat, n: nat) {
    i + n <= |s| && forall j :: i <= j < i + n ==> DotMatches(s[j])
  }

  /** The unanchored search for `.{1,255}` succeeds somewhere in `s`. */
  predicate BodyPatternFound(s: string) {
    exists i: nat, n: nat :: i < |s| && 1 <= n <= MAX_BODY_RUN && DotRun(s, i, n)
  }

  /** The search succeeds exactly when some character is not a line feed. */
  lemma BodyPatternFoundIff(s: string)
    ensures BodyPatternFound(s) <==> exists i :: 0 <= i < |s| && DotMatches(s[i])
  {
    if BodyPatternFound(s) {
      var i: nat, n: nat :| i < |s| && 1 <= n <= MAX_BODY_RUN && DotRun(s, i, n);
      assert DotMatches(s[i]);
    }
    if exists i :: 0 <= i < |s| && DotMatches(s[i]) {
      var i :| 0 <= i < |s| && DotMatches(s[i]);
      assert DotRun(s, i, 1);
    }
  }

  const BodyError := NewError(Validation, "Body size 1-255")

  /** Rejects a body in which the pattern finds nothing: only the empty body and all-line-feed bodies. */
  function ValidateBody(body: string): (r: VortoResult<()>)
    ensures r.Ok? <==> exists i :: 0 <= i < |body| && DotMatches(body[i])
    ensures r.Err? ==> r.error == BodyError
  {
    BodyPatternFoundIff(body);
    ValidateFn(() => !BodyPatternFound(body), BodyError)
  }

  /** The 255 in the pattern bounds a run, not the body: a longer body is accepted. */
  lemma LongBodyAccepted()
    ensures ValidateBody(seq(300, _ => 'a')).Ok?
    ensures ValidateBody("").Err?
    ensures ValidateBody("\n\n").Err?
  {
    assert DotMatches(seq(300, _ => 'a')[0]);
  }

  // ---------------------------------------------------------------------------
  // Timestamp check

  const TimestampError := NewError(Timestamp, "Timestamp is wrong")

  /** Fails with the Timestamp code iff the stored and the supplied timestamps differ. */
  function CheckTimestamp(wordTimestamp: int, newTimestamp: int): (r: VortoResult<()>)
    ensures r.Err? <==> wordTimestamp != newTimestamp
    ensures r.Err? ==> r.error == TimestampError && r.error.code == 1
    ensures r.Ok? ==> r == Ok(())
  {
    if wordTimestamp != newTimestamp then Err(TimestampError) else Ok(())
  }

  // ---------------------------------------------------------------------------
  // Loading parsed definitions

  function VocIdOf(voc: Option<Voc>): Option<int> {
    match voc
    case Some(v) => Some(v.id)
    case None => None
  }

  /** The word after a failed or empty load: marked as such and stamped with the time. */
  function LoadFailed(word: Word, now: int): Word {
    word.(load_status := WordLoadStatusToString(LoadedWithFail), timestamp := now)
  }

  /** Every parsed definition passes the length rule. */
  predicate AllDefinitionsValid(defs: seq<(Option<Voc>, string)>) {
    forall i :: 0 <= i < |defs| ==> DefinitionLengthOk(defs[i].1)
  }

  function LoadedDefinition(word: Word, defs: seq<(Option<Voc>, string)>, i: nat): VortoResult<WordDefinition>
    requires i < |defs|
  {
    NewWordDefinition(-1, defs[i].1, DefinitionNotActive, i, word.id, VocIdOf(defs[i].0))
  }

  /**
   Loads the definitions parsed for a word. The timestamp is checked first.
   A failed or empty parse marks the word "loaded_with_fail"; otherwise every
   definition is validated and the word is marked "loaded". Either way the
   word's timestamp becomes the load time.
   */
  function LoadDefinitions(word: Word, timestamp: int, definitions: VortoResult<seq<(Option<Voc>, string)>>, now: int)
    : (r: VortoResult<(Word, seq<WordDefinition>)>)
    ensures word.timestamp != timestamp ==> r == Err(TimestampError)
    ensures word.timestamp == timestamp && (definitions.Err? || |definitions.value| == 0) ==>
      r == Ok((LoadFailed(word, now), []))
    ensures word.timestamp == timestamp && definitions.Ok? && |definitions.value| > 0 ==>
      (r.Ok? <==> AllDefinitionsValid(definitions.value))
    ensures word.timestamp == timestamp && definitions.Ok? && |definitions.value| > 0 && r.Err? ==>
      r.error.code == 4
    ensures word.timestamp == timestamp && definitions.Ok? && |definitions.value| > 0 && r.Ok? ==>
      r.value.0 == word.(load_status := "loaded", timestamp := now)
    ensures word.timestamp == timestamp && definitions.Ok? && |definitions.value| > 0 && r.Ok? ==>
      var defs := definitions.value;
      |r.value.1| == |defs| &&
      forall i :: 0 <= i < |defs| ==>
        r.value.1[i] == WordDefinition(-1, defs[i].1, "not_active", i, word.id, VocIdOf(defs[i].0))
  {
    var _ :- CheckTimestamp(word.timestamp, timestamp);
    match definitions
    case Err(_) => Ok((LoadFailed(word, now), []))
    case Ok(defs) =>
      if |defs| == 0 then Ok((LoadFailed(word, now), []))
      else
        var results := seq(|defs|, i requires 0 <= i < |defs| => LoadedDefinition(word, defs, i));
        assert forall i :: 0 <= i < |defs| ==> (results[i].Ok? <==> DefinitionLengthOk(defs[i].1));
        var wds :- ReduceResults(results);
        Ok((word.(load_status := WordLoadStatusToString(Loaded), timestamp := now), wds))
  }

  // ---------------------------------------------------------------------------
  // Admin update

  /** Every submitted definition passes the length rule. */
  predicate AllDtosValid(dtos: seq<WordDefinitionDto>) {
    forall i :: 0 <= i < |dtos| ==> DefinitionLengthOk(dtos[i].definition)
  }

  function UpdatedDefinition(word: Word, dtos: seq<WordDefinitionDto>, i: nat): VortoResult<WordDefinition>
    requires i < |dtos|
  {
    NewWordDefinition(-1, dtos[i].definition, dtos[i].status, i, word.id, dtos[i].voc_id)
  }

  /**
   Replaces a word's status, difficulty and definitions. The timestamp is
   checked first, then every definition is validated; the body, the edit flag
   and the load status are kept, and the timestamp becomes the update time.
   */
  function Update(word: Word, newStatus: WordStatus, difficulty: int, timestamp: int,
                  dtos: seq<WordDefinitionDto>, now: int): (r: VortoResult<(Word, seq<WordDefinition>)>)
    ensures word.timestamp != timestamp ==> r == Err(TimestampError)
    ensures word.timestamp == timestamp ==> (r.Ok? <==> AllDtosValid(dtos))
    ensures word.timestamp == timestamp && r.Err? ==> r.error.code == 4
    ensures r.Ok? ==> var w := r.value.0;
      w.id == word.id && w.body == word.body && w.is_edited_after_load == word.is_edited_after_load &&
      w.load_status == word.load_status &&
      w.status == WordStatusToString(newStatus) && w.difficulty == difficulty && w.timestamp == now
    ensures r.Ok? ==> |r.value.1| == |dtos|
    ensures r.Ok? ==> forall i :: 0 <= i < |dtos| ==>
        r.value.1[i] == WordDefinition(-1, dtos[i].definition, WordDefinitionStatusToString(dtos[i].status),
                                       i, word.id, dtos[i].voc_id)
  {
    var _ :- CheckTimestamp(word.timestamp, timestamp);
    var results := seq(|dtos|, i requires 0 <= i < |dtos| => UpdatedDefinition(word, dtos, i));
    assert forall i :: 0 <= i < |dtos| ==> (results[i].Ok? <==> DefinitionLengthOk(dtos[i].definition));
    var wds :- ReduceResults(results);
    Ok((word.(status := WordStatusToString(newStatus), timestamp := now, difficulty := difficulty), wds))
  }

  /**
   A successful load or update stamps the word with the time, so a second
   writer still holding the old timestamp is turned away.
   */
  lemma StaleWriterRejected(word: Word, t: int, definitions: VortoResult<seq<(Option<Voc>, string)>>,
                            now: int, s: WordStatus, d: int, dtos: seq<WordDefinitionDto>, later: int)
    requires LoadDefinitions(word, t, definitions, now).Ok?
    requires now != t
    ensures Update(LoadDefinitions(word, t, definitions, now).value.0, s, d, t, dtos, later) == Err(TimestampError)
  {
  }

  /** An update that succeeds can be followed by one quoting the new timestamp. */
  lemma UpdateHandsOverTimestamp(word: Word, s: WordStatus, d: int, t: int, dtos: seq<WordDefinitionDto>, now: int)
    requires Update(word, s, d, t, dtos, now).Ok?
    ensures CheckTimestamp(Update(word, s, d, t, dtos, now).value.0.timestamp, now).Ok?
    ensures Update(word, s, d, t, dtos, now).value.0.timestamp != t ==>
      CheckTimestamp(Update(word, s, d, t, dtos, now).value.0.timestamp, t).Err?
  {
  }

  // ---------------------------------------------------------------------------
  // Construction

  /** Validates the body; on success the word copies every argument and names the statuses. */
  function NewWord(id: int, body: string, status: WordStatus, isEditedAfterLoad: bool,
                   loadStatus: WordLoadStatus, difficulty: int, timestamp: int): (r: VortoResult<Word>)
    ensures r.Ok? <==> exists i :: 0 <= i < |body| && DotMatches(body[i])
    ensures r.Err? ==> r.error == BodyError
    ensures r.Ok? ==> r.value == Word(id, body, WordStatusToString(status), isEditedAfterLoad,
                                      WordLoadStatusToString(loadStatus), difficulty, timestamp)
  {
    var _ :- ValidateBody(body);
    Ok(Word(id, body, WordStatusToString(status), isEditedAfterLoad, WordLoadStatusToString(loadStatus), difficulty, timestamp))
  }

  /** A constructed word's statuses parse back to the variants it was built from. */
  lemma NewWordStatusesParse(id: int, body: string, status: WordStatus, e: bool, ls: WordLoadStatus, d: int, t: int)
    requires NewWord(id, body, status, e, ls, d, t).Ok?
    ensures WordStatusFromString(NewWord(id, body, status, e, ls, d, t).value.status) == Some(status)
    ensures WordLoadStatusFromString(NewWord(id, body, status, e, ls, d, t).value.load_status) == Some(ls)
  {
    WordStatusRoundTrip(status, status);
    WordLoadStatusRoundTrip(ls, ls);
  }
}
