/**
 The status enumerations and their snake_case string forms (the strum
 `Display`/`FromStr` derivations). Parsing returns `None` for any string that
 is not one of an enumeration's names.
 */
module Enums {

  import opened Seqs

  datatype WordStatus = WordActive | WordNotActive | Draft

  function WordStatusToString(s: WordStatus): string {
    match s
    case WordActive => "active"
    case WordNotActive => "not_active"
    case Draft => "draft"
  }

  function WordStatusFromString(t: string): (r: Option<WordStatus>)
    ensures r.Some? ==> WordStatusToString(r.value) == t
    ensures r.None? ==> t != "active" && t != "not_active" && t != "draft"
  {
    if t == "active" then Some(WordActive)
    else if t == "not_active" then Some(WordNotActive)
    else if t == "draft" then Some(Draft)
    else None
  }

  lemma WordStatusRoundTrip(s: WordStatus, u: WordStatus)
    ensures WordStatusFromString(WordStatusToString(s)) == Some(s)
    ensures WordStatusToString(s) == WordStatusToString(u) ==> s == u
  {
  }

  datatype WordLoadStatus = NotLoaded | Loaded | LoadedWithFail

  function WordLoadStatusToString(s: WordLoadStatus): string {
    match s
    case NotLoaded => "not_loaded"
    case Loaded => "loaded"
    case LoadedWithFail => "loaded_with_fail"
  }

  function WordLoadStatusFromString(t: string): (r: Option<WordLoadStatus>)
    ensures r.Some? ==> WordLoadStatusToString(r.value) == t
    ensures r.None? ==> t != "not_loaded" && t != "loaded" && t != "loaded_with_fail"
  {
    if t == "not_loaded" then Some(NotLoaded)
    else if t == "loaded" then Some(Loaded)
    else if t == "loaded_with_fail" then Some(LoadedWithFail)
    else None
  }

  lemma WordLoadStatusRoundTrip(s: WordLoadStatus, u: WordLoadStatus)
    ensures WordLoadStatusFromString(WordLoadStatusToString(s)) == Some(s)
    ensures WordLoadStatusToString(s) == WordLoadStatusToString(u) ==> s == u
  {
  }

  datatype WordDefinitionStatus = DefinitionActive | DefinitionNotActive

  function WordDefinitionStatusToString(s: WordDefinitionStatus): string {
    match s
    case DefinitionActive => "active"
    case DefinitionNotActive => "not_active"
  }

  function WordDefinitionStatusFromString(t: string): (r: Option<WordDefinitionStatus>)
    ensures r.Some? ==> WordDefinitionStatusToString(r.value) == t
    ensures r.None? ==> t != "active" && t != "not_active"
  {
    if t == "active" then Some(DefinitionActive)
    else if t == "not_active" then Some(DefinitionNotActive)
    else None
  }

  lemma WordDefinitionStatusRoundTrip(s: WordDefinitionStatus, u: WordDefinitionStatus)
    ensures WordDefinitionStatusFromString(WordDefinitionStatusToString(s)) == Some(s)
    ensures WordDefinitionStatusToString(s) == WordDefinitionStatusToString(u) ==> s == u
  {
  }

  datatype GameState = GameActive | Ended

  function GameStateToString(s: GameState): string {
    match s
    case GameActive => "active"
    case Ended => "ended"
  }

  function GameStateFromString(t: string): (r: Option<GameState>)
    ensures r.Some? ==> GameStateToString(r.value) == t
    ensures r.None? ==> t != "active" && t != "ended"
  {
    if t == "active" then Some(GameActive)
    else if t == "ended" then Some(Ended)
    else None
  }

  lemma GameStateRoundTrip(s: GameState, u: GameState)
    ensures GameStateFromString(GameStateToString(s)) == Some(s)
    ensures GameStateToString(s) == GameStateToString(u) ==> s == u
  {
  }
}
