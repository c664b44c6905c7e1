/** A definition of a word: its length rule and its validated constructor. */
module WordDefinitions {

  import opened Error
  import opened Text
  import opened DomainCommon
  import opened Enums
  import opened Seqs

  datatype WordDefinition = WordDefinition(
    id: int,
    definition: string,
    status: string,
    order: int,
    word_id: int,
    voc_id: Option<int>)

  /** Bounds, in UTF-8 bytes, of an acceptable definition. */
  const MIN_DEFINITION_BYTES := 10
  const MAX_DEFINITION_BYTES := 1000

  const DefinitionLengthError := NewError(Validation, "Definition's lenght should be in range 10-1000")

  predicate DefinitionLengthOk(definition: string) {
    MIN_DEFINITION_BYTES <= Utf8Len(definition) <= MAX_DEFINITION_BYTES
  }

  /** Accepts a definition iff its UTF-8 length lies within the bounds. */
  function ValidateDefinition(definition: string): (r: VortoResult<()>)
    ensures r.Ok? <==> DefinitionLengthOk(definition)
    ensures r.Err? ==> r.error == DefinitionLengthError && r.error.code == 4
  {
    ValidateFn(() => Utf8Len(definition) < MIN_DEFINITION_BYTES || Utf8Len(definition) > MAX_DEFINITION_BYTES,
      DefinitionLengthError)
  }

  /** Validates first; on success the record copies every argument and names the status. */
  function NewWordDefinition(id: int, definition: string, status: WordDefinitionStatus, order: int,
                             wordId: int, vocId: Option<int>): (r: VortoResult<WordDefinition>)
    ensures r.Ok? <==> DefinitionLengthOk(definition)
    ensures r.Err? ==> r.error == DefinitionLengthError
    ensures r.Ok? ==> r.value == WordDefinition(id, definition, WordDefinitionStatusToString(status), order, wordId, vocId)
  {
    var _ :- ValidateDefinition(definition);
    Ok(WordDefinition(id, definition, WordDefinitionStatusToString(status), order, wordId, vocId))
  }

  /** Ten ASCII characters are just long enough; nine are too few. */
  lemma DefinitionBoundaries()
    ensures ValidateDefinition(seq(10, _ => 'a')).Ok?
    ensures ValidateDefinition(seq(9, _ => 'a')).Err?
  {
    Utf8LenUniform(seq(10, _ => 'a'), 1);
    Utf8LenUniform(seq(9, _ => 'a'), 1);
  }

  /** Five two-byte characters also reach the minimum of ten bytes: the bound counts bytes, not characters. */
  lemma DefinitionCountsBytes()
    ensures ValidateDefinition("ééééé").Ok?
  {
    Utf8LenUniform("ééééé", 2);
  }
}
