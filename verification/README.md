# Vorto backend core, modelled in Dafny

Vorto is the backend of a team word-guessing game ("alias"), plus a word
catalogue whose definitions are scraped from Wiktionary. This project models
the parts of it that are sequential, deterministic logic:

- the game engine (`src/domain/game.rs`): it creates a game with one team
  result per team, then completes rounds. A round passes the gate (token, then
  active state, then expiry, then word budget), picks the acting team by
  `turn mod n`, scores the words and either moves the turn on or ends the game
  and names a winner;
- the fold that turns the rows of the game-view join into a nested, scored and
  sorted view (`src/db/game.rs`);
- the generic helpers `group`, `vec_to_map` and `reduce_results`; the
  `VortoResult`/`VortoError` type with its error-code table; `validate_fn`; the
  snake_case names of the enums;
- the word catalogue: the timestamp-guarded loading and updating of a word and
  its definitions, the body and definition-length rules;
- the string pipeline that cleans a scraped definition, the SQL fragments the
  word search builds, the quote-escaping SQL renderer (and its copy in the
  migrator) and the VALUES builder for word definitions.

Each source file has its own module: `Games`, `GameViews`, `Common`, `Error`,
`DomainCommon`, `Enums`, `Words`, `WordDefinitions`, `WikiParser`,
`WordService`, `DbCommon`, `DbWordDefinition` and `Migrator`. Next to these,
`WordResults`, `TeamResults`, `GameService` and `Responses` hold the record
types and the caller's batch de-duplication. `Seqs` and `Text` model the parts
of Rust's collections and `str` API the code relies on: `unique_by`, `sort_by`,
`max_by_key`, `cycle`, `join`, `split`, `replace`, `trim`, `to_string` and
UTF-8 length.

The modelling choices:

- Clocks are integer seconds, passed in as parameters. The random game token
  is a parameter too.
- The order in which a `HashMap` yields its values is a parameter. It is either
  an arbitrary permutation of the values (`mapValues`) or insertion order, and
  contracts state only facts that hold in every order.
- `i32` is kept as an explicit subset type where the code's behaviour depends
  on the width: a game's `turn` and `word_count`, cast `as usize`, and
  `turn + 1`. Everywhere else integers are unbounded.

## Model

| member | source | states |
|---|---|---|
| Error.CodeValueRoundTrip | src/error.rs:8-19 | Distinct codes have distinct discriminants (1 to 9, and 1000 for Infrastructure), and each discriminant reads back as its code. |
| Error.NewError | src/error.rs:27-34 | The error's code reads back as the given code; its message is "[" + the code's variant name + "] " followed by the given text, exactly. |
| Error.NewErrorInjective | src/error.rs:27-34 | Two errors built by `new` are equal only if they have the same code and the same text. |
| Error.ResultLaws | src/error.rs:50-85 | `is_ok` holds exactly for Ok and `is_err` exactly for Err. `unwrap` and `expect` return the Ok payload. `from_output(c)` branches to Continue(c). Ok branches to Continue with its value, and Err breaks with itself unchanged. |
| Error.VortoResult.PropagateFailure | src/error.rs:171-178 | Passing an error from one result type into another keeps the error exactly. |
| Error.ForeignToError | src/error.rs:87-109 | A foreign library error becomes code 1000 (Infrastructure), and the foreign error's text follows the tag. |
| Error.MissingOptionError | src/error.rs:111-121 | A missing Option becomes code 1000 (Infrastructure) with the text "Option value is missing". |
| DomainCommon.ValidateFn | src/domain/common.rs:4-10 | The result is Err exactly when the predicate holds. The error is the supplied one, unchanged. Otherwise the result is Ok(()). |
| DomainCommon.ValidateFnDependsOnValue | src/domain/common.rs:4-10 | Two predicates with the same value give the same outcome. |
| Enums.WordStatusFromString | src/domain/enums.rs:4-11 | A parsed name renders back to itself; every text other than "active", "not_active" and "draft" is rejected. |
| Enums.WordStatusRoundTrip | src/domain/enums.rs:4-11 | Parsing a status's name gives the status back; distinct statuses have distinct names. |
| Enums.WordLoadStatusFromString | src/domain/enums.rs:13-20 | A parsed name renders back to itself; every text other than "not_loaded", "loaded" and "loaded_with_fail" is rejected. |
| Enums.WordLoadStatusRoundTrip | src/domain/enums.rs:13-20 | Parsing a load status's name gives it back; distinct load statuses have distinct names. |
| Enums.WordDefinitionStatusFromString | src/domain/enums.rs:22-28 | A parsed name renders back to itself; every text other than "active" and "not_active" is rejected. |
| Enums.WordDefinitionStatusRoundTrip | src/domain/enums.rs:22-28 | Parsing a definition status's name gives it back; distinct statuses have distinct names. |
| Enums.GameStateFromString | src/domain/enums.rs:30-36 | A parsed name renders back to itself; every text other than "active" and "ended" is rejected. |
| Enums.GameStateRoundTrip | src/domain/enums.rs:30-36 | Parsing a game state's name gives it back; the two states have distinct names. |
| Common.Group | src/common.rs:10-39 | There is one group per distinct group key. Groups come in the order their keys first appear. Each group's key is `key_fn` of its first row. Its values are the `Some` values of its rows, in row order. |
| Common.GroupSlotsMatch | src/common.rs:21-37 | Every step of the insertion-ordered map keeps it equal to the reference grouping: first rows by key, values collected in order. |
| Common.GroupCounts | src/common.rs:21-38 | The groups hold as many values in total as there are rows whose `value_fn` is `Some`. Every row's key has a group. Each group's key value comes from the first row carrying that group key. |
| Common.GroupSlotsTotal | src/common.rs:25-34 | The slot fold counts one value per `Some` row and none per `None` row. |
| Common.VecToMap | src/common.rs:41-54 | The map's keys are exactly the images of `key_fn` over the input. |
| Common.VecToMapLastWins | src/common.rs:49-52 | The value stored for a key comes from the last element carrying that key. |
| Common.VecToMapValueFrom | src/common.rs:49-52 | Every stored value is `value_fn` of some input element with that key. |
| Common.Errs | src/common.rs:57-64 | The error list is empty exactly when every result is Ok, and every listed error comes from some Err input. One Err gives its error alone; one Ok gives nothing. |
| Common.ErrsConcat | src/common.rs:57-64 | The errors of a concatenation are the errors of each part, in order; with the one-result case of `Errs`, each Err is listed once, where it stands, and Ok results add nothing. |
| Common.ReduceResults | src/common.rs:56-75 | The result is Ok exactly when every input is Ok, and then holds the values in input order (an empty input gives Ok of nothing). Otherwise it is a Validation error (code 4), whatever the original codes. Its text joins the "code: c message: m" lines of the errors with ", ". |
| Common.Oks | src/common.rs:57-64 | When every result is Ok, the values are those of the inputs, in order. One Ok gives its value alone; one Err gives nothing. |
| Common.OksConcat | src/common.rs:57-64 | The values of a concatenation are the values of each part, in order. |
| TeamResults.NewTeamResult | src/domain/team_result.rs:11-19 | Always succeeds and copies every argument. |
| Games.AsUsize | src/domain/game.rs:152 | A non-negative `i32` keeps its value. A negative one wraps modulo 2^64, so it exceeds every `i32`. |
| Games.WrappingInc | src/domain/game.rs:224 | Adds one, and the largest `i32` wraps to the smallest. |
| Games.ValidateTeamCount | src/domain/game.rs:33-41 | Accepts exactly two or more teams; otherwise gives the TeamSize error "Should be at least 2 teams". |
| Games.ValidateRoundTime | src/domain/game.rs:43-51 | Accepts exactly 1 to 1000; otherwise gives the Validation error "Round time valid range 1-1000". |
| Games.ValidateWordCount | src/domain/game.rs:53-61 | Accepts exactly 1 to 500; otherwise gives the Validation error whose text, as written, says 1-5000. |
| Games.NewGame | src/domain/game.rs:63-97 | The checks fail in order: team count, then round time, then word count. On success the game is active, has turn 0 and no winner, keeps every argument, starts now and expires ten hours (36000 s) later. There is one team result per team, carrying that team's id and its index as order. |
| Games.NewGamePlayable | src/domain/game.rs:63-124 | A new game passes the round gate with its own token at any moment up to its expiry. |
| Games.ValidateToken | src/domain/game.rs:99-107 | Passes exactly when the token matches; otherwise gives InvalidGameToken. |
| Games.ValidateActive | src/domain/game.rs:109-114 | Passes exactly when the state is "active"; otherwise gives ActiveGame. |
| Games.ValidateExpired | src/domain/game.rs:116-124 | Passes exactly when `now <= expired_at`, so a game is still playable at its expiry instant. Otherwise gives the ExpiredGame error. |
| Games.CurrentTeamResult | src/domain/game.rs:126-138 | The acting team result is the one at `turn as usize mod n`, also when the turn is n or more. |
| Games.ValidateWordsCount | src/domain/game.rs:140-155 | Passes exactly when the stored words plus the batch stay within the game's word count; otherwise gives TooManyWords. |
| Games.GameWordCount | src/domain/game.rs:140-142 | Each team's word count is at most the total, and one team's total is its own count. |
| Games.GameWordCountConcat | src/domain/game.rs:140-142 | The count of a concatenation is the sum of the counts of its parts, so every team's words are counted once. |
| Games.CalcScore | src/domain/game.rs:165-169 | The score is bounded by the number of outcomes, and is never negative without the penalty. |
| Games.GetScore | src/domain/game.rs:157-163 | A word scores between -1 and 1: positive exactly when guessed, negative exactly when missed under the penalty rule, zero otherwise. |
| Games.CalcScoreCounts | src/domain/game.rs:157-169 | The score is the number of guessed words, minus the number of missed ones when the penalty applies. |
| Games.CalcScorePermutation | src/domain/game.rs:165-169 | The score does not depend on the order of the outcomes. |
| Games.WinnerIndex | src/domain/game.rs:171-191 | The chosen team result scores at least as much as every other: its stored score, plus the batch score when its team is the acting team. Every later team result scores strictly less, so a tie goes to the last maximal team. |
| Games.HighestScoreTeamResult | src/domain/game.rs:171-191 | Returns the team result at the winning index. |
| Games.NewWordResults | src/domain/game.rs:229-233 | One word result per batch entry, none dropped. Each has id -1 and the batch index as order, keeps its word id and outcome, and belongs to the acting team result. |
| Games.CompleteRound | src/domain/game.rs:193-236 | The checks fail in order: token, then active state, then expiry, then word budget. A round that leaves words in the budget changes only the turn. A round that uses the budget up exactly ends the game and names the winner; the turn and the other fields stay. The new word results are as above. |
| Games.EndedGameIsFinal | src/domain/game.rs:206-221 | A round that ends the game names a winner, and the ended game refuses every later round. |
| Games.EndedGameRefuses | src/domain/game.rs:109-114 | A game whose state is "ended" refuses a round, whatever the token, clock and batch. |
| Games.NextRoundNextSeat | src/domain/game.rs:222-226 | After a round that does not end the game, the next acting team is the next one in the cycle. |
| Games.WordBudgetKept | src/domain/game.rs:144-155 | The stored words plus the words booked by a successful round never exceed the game's word count. |
| GameService.RoundBatch | src/services/game_service.rs:48-52 | The batch holds each submitted word id exactly once, every pair in it was submitted, and no submitted word is lost. |
| GameService.RoundBatchKeepsFirst | src/services/game_service.rs:48-52 | Each word id keeps the outcome of its first submission. |
| GameService.RoundBooksEachWordOnce | src/services/game_service.rs:45-55 | The word results a round creates have pairwise distinct word ids. |
| GameViews.GameNotFoundError | src/db/game.rs:64-69 | Gives the NotFound error with the text "Game not found". |
| GameViews.FoldWinner | src/db/game.rs:166-183 | The fold finds a winner exactly when some row has winner columns, and takes them from the first such row. |
| GameViews.FoldWinnerEntries | src/db/game.rs:184-198 | The winner's word results are keyed by word-result id, and the first row with each id wins. |
| GameViews.FoldSlots | src/db/game.rs:200-230 | The fold has one entry per distinct team-result id, in first-appearance order. Its team comes from the first row of that team result. Its word results are the rows that name it, first row per word-result id. |
| GameViews.FinishEntries | src/db/game.rs:243-255 | A finished entry keeps its id and team, holds exactly its word results sorted by order, and is scored from them. |
| GameViews.FinishedTeamsSpec | src/db/game.rs:200-255 | Each finished team result has the first row's team, holds exactly the word results that name it sorted by order, and its score is the score of those outcomes under the game's penalty. |
| GameViews.FinishedTeamsOnePerTeamResult | src/db/game.rs:200-214 | Team-result ids are distinct, and every row's team result appears. |
| GameViews.GameViewOf | src/db/game.rs:155-274 | No rows give NotFound. Otherwise the scalar fields come from the first row, and the team results are the finished ones in any map order, sorted by score descending. The winner exists exactly when some row names one; its id comes from the first such row and its team from that row's `winner_t` columns. Its word results are de-duplicated and sorted by order, and its score is computed from them. |
| GameViews.GameViewAsWritten | src/db/game.rs:155-274 | The same view, but the winner's team is taken from the row's own team columns, as the code does. |
| GameViews.AsWrittenWinnerTeamIsWrong | src/db/game.rs:166-172 | On a row of team A whose game was won by team B, the view as written labels B's team result with team A. |
| Words.BodyPatternFoundIff | src/domain/word.rs:36-38 | The unanchored pattern `.{1,255}` matches exactly when some character is not a line feed. |
| Words.ValidateBody | src/domain/word.rs:40-45 | Accepts exactly the bodies holding a character other than a line feed; otherwise gives "Body size 1-255". |
| Words.LongBodyAccepted | src/domain/word.rs:36-45 | A 300-character body is accepted; the empty body and a body of line feeds are rejected. |
| Words.CheckTimestamp | src/domain/word.rs:47-56 | Fails with the Timestamp error (code 1) exactly when the timestamps differ. |
| Words.LoadDefinitions | src/domain/word.rs:58-112 | The timestamp is checked first. A failed or empty parse marks the word "loaded_with_fail" and returns no definitions. Otherwise the call succeeds exactly when every definition is valid, and fails with Validation otherwise. On success the word is "loaded", and each definition has its index as order, status "not_active", the word's id and its voc's id. Either way the timestamp becomes the load time and nothing else changes. |
| Words.Update | src/domain/word.rs:114-149 | The timestamp is checked first, then the call succeeds exactly when every submitted definition is valid. Only status, difficulty and timestamp change. Each definition has its index as order and the word's id, with status and voc id taken from the form. |
| Words.StaleWriterRejected | src/domain/word.rs:64-122 | After a load, a writer still holding the old timestamp is refused. |
| Words.UpdateHandsOverTimestamp | src/domain/word.rs:122-146 | After an update, the new timestamp is accepted and the old one is refused. |
| Words.NewWord | src/domain/word.rs:151-172 | Succeeds exactly when the body is valid, and then copies every argument and names the statuses. |
| Words.NewWordStatusesParse | src/domain/word.rs:163-171 | A new word's status strings parse back to the variants it was built from. |
| WordDefinitions.ValidateDefinition | src/domain/word_definition.rs:15-26 | Accepts exactly the definitions whose UTF-8 length is 10 to 1000 bytes; otherwise gives a Validation error (code 4). |
| WordDefinitions.NewWordDefinition | src/domain/word_definition.rs:28-46 | Validates first. On success it copies every argument and names the status. |
| WordDefinitions.DefinitionBoundaries | src/domain/word_definition.rs:18-19 | Ten ASCII characters are accepted and nine are rejected. |
| WordDefinitions.DefinitionCountsBytes | src/domain/word_definition.rs:18 | Five two-byte characters are accepted: the bound counts bytes, not characters. |
| WikiParser.ReplaceU | src/services/wiki_parser_service.rs:137-139 | Every non-breaking space becomes a space. Every other character and the length are kept. |
| WikiParser.RemoveMultipleSpaces | src/services/wiki_parser_service.rs:141-147 | The result has no two adjacent spaces, is empty only for empty input, and keeps a non-space first and last character. |
| WikiParser.RemoveMultipleSpacesIsCollapse | src/services/wiki_parser_service.rs:141-147 | Collapsing runs equals the reference that keeps each character unless it is a space right after a space. |
| WikiParser.CollapseAfterSpace | src/services/wiki_parser_service.rs:141-147 | After a space, every following space is dropped and the first non-space is kept. |
| WikiParser.RemoveMultipleSpacesIdempotent | src/services/wiki_parser_service.rs:141-147 | Collapsing spaces twice is the same as once. |
| WikiParser.NoDoubleSpaceFixed | src/services/wiki_parser_service.rs:141-147 | A text without adjacent spaces is left unchanged. |
| WikiParser.RemoveMultipleSpacesKeepsText | src/services/wiki_parser_service.rs:141-147 | Only spaces are removed: the non-space characters stay, in order. |
| WikiParser.RemoveMultipleSpacesChars | src/services/wiki_parser_service.rs:141-147 | Collapsing spaces brings in no new character. |
| WikiParser.RemoveMultipleSpacesTrimmed | src/services/wiki_parser_service.rs:141-147 | A trimmed text stays trimmed. |
| WikiParser.ReplaceUChars | src/services/wiki_parser_service.rs:137-139 | No non-breaking space is left, and only the space is brought in. |
| WikiParser.RemoveSamples | src/services/wiki_parser_service.rs:149-155 | The result is a prefix without the sample mark '◆', cut exactly at a mark when it is shorter. |
| WikiParser.RemoveSamplesCutsAtFirst | src/services/wiki_parser_service.rs:149-155 | The cut is at the first mark. |
| WikiParser.RemoveSamplesChars | src/services/wiki_parser_service.rs:149-155 | Cutting brings in no new character. |
| WikiParser.DigitRun | src/services/wiki_parser_service.rs:159 | The run of `\d+` at a position: all ASCII digits, and it stops before a non-digit or at the end. |
| WikiParser.MarkerAt | src/services/wiki_parser_service.rs:159 | A marker found at the front is a prefix of 3 or more characters matched by one of the two alternatives. |
| WikiParser.MarkerAtExact | src/services/wiki_parser_service.rs:159 | A prefix matched by `\[. \d+\]` or `\[\d+\]` is the marker the scan finds. |
| WikiParser.ReplaceMarkers | src/services/wiki_parser_service.rs:159-161 | Replacing markers never lengthens the text. |
| WikiParser.ReplaceMarkersChars | src/services/wiki_parser_service.rs:159-161 | Replacing markers brings in no character but the space. |
| WikiParser.MarkerReplaced | src/services/wiki_parser_service.rs:159-161 | A marker at the front is replaced by a single space. |
| WikiParser.ReplaceMarkersNoBracket | src/services/wiki_parser_service.rs:159-161 | A text without '[' is left unchanged. |
| WikiParser.NoMarkerKept | src/services/wiki_parser_service.rs:159-161 | Where no marker starts, the character is kept and the scan moves on by one. |
| WikiParser.ReplaceMarkersPlainPrefix | src/services/wiki_parser_service.rs:159-161 | Text without '[' in front of the rest is kept as it is. |
| WikiParser.MarkerAfterPlain | src/services/wiki_parser_service.rs:159-161 | Plain text, a marker, then the rest: the text is kept, the marker becomes one space, and the scan goes on after it. |
| WikiParser.RemoveNoise | src/services/wiki_parser_service.rs:157-162 | The result is trimmed, no longer than the input, and brings in no character but the space. |
| WikiParser.RemoveNoiseTrimsMarkers | src/services/wiki_parser_service.rs:157-162 | The result is the marker-replaced text with its whitespace at both ends removed: a slice of it with only whitespace outside. |
| WikiParser.DeleteVocs | src/services/wiki_parser_service.rs:165-168 | No vocs leave the text as it is. Deleting every voc in turn never lengthens the text and brings in no new character. |
| WikiParser.DeleteVocsStep | src/services/wiki_parser_service.rs:165-168 | Each voc in turn: the text so far is cut at every occurrence of the voc and the pieces are joined with nothing between them; an empty voc deletes nothing. |
| WikiParser.DeleteVocsAbsent | src/services/wiki_parser_service.rs:165-168 | Vocs that do not occur leave the text unchanged. |
| WikiParser.RemoveVocs | src/services/wiki_parser_service.rs:164-170 | The result does not start with ", " and brings in no new character. |
| WikiParser.RemoveVocsStripsSeparators | src/services/wiki_parser_service.rs:164-170 | The text after the deletions is some number of ", " repetitions followed by the result. |
| WikiParser.RemoveVocsAbsent | src/services/wiki_parser_service.rs:164-170 | When no voc occurs, only the leading ", " repetitions are stripped. |
| WikiParser.PrettyDefinition | src/services/wiki_parser_service.rs:172-177 | A pretty definition has no adjacent spaces, no whitespace at either end, no non-breaking space and no sample mark, and brings in no character but the space. |
| WikiParser.PrettyDefinitionKeepsClean | src/services/wiki_parser_service.rs:172-177 | A definition that is already clean (no voc in it, no non-breaking space, no sample mark, no '[', no leading ", ", trimmed, no adjacent spaces) comes out unchanged. |
| WikiParser.KeepNonEmpty | src/services/wiki_parser_service.rs:229-231 | Exactly the pairs with a non-empty definition are kept. One pair is kept exactly when its definition is not empty. |
| WikiParser.KeepNonEmptyConcat | src/services/wiki_parser_service.rs:229-231 | Filtering a concatenation filters each part and keeps their order; with the one-pair case, each kept pair appears once, where it stood. |
| WikiParser.KeepPrettyDefinitions | src/services/wiki_parser_service.rs:226-231 | Exactly the non-empty pretty definitions are kept, together with their vocs. One item gives its pretty pair, or nothing when the pretty definition is empty. |
| WikiParser.KeepPrettyDefinitionsConcat | src/services/wiki_parser_service.rs:226-231 | Definitions are handled one by one: a concatenation gives the results of its parts, in order. |
| WikiParser.KeptDefinitionsClean | src/services/wiki_parser_service.rs:226-231 | Every kept definition has no adjacent spaces and no whitespace at either end. |
| WordService.InQry | src/services/word_service.rs:55-57 | The fragment starts with the field and " IN (" and ends with ")". |
| WordService.InQryRecoversValues | src/services/word_service.rs:55-57 | Splitting the list between the parentheses at the commas gives the values back, when no value contains a comma. |
| WordService.DbStr | src/services/word_service.rs:59-61 | The value between two quotes, unescaped. |
| WordService.FieldOrderQry | src/services/word_service.rs:63-72 | The column name, then " ASC" or " DESC". |
| WordService.FieldOrderQryInjective | src/services/word_service.rs:63-72 | Distinct orderings give distinct fragments. |
| WordService.TextClauseQuoteBreaksOut | src/services/word_service.rs:84-88 | A quote in the search text ends the literal early, so the rest is read as SQL. |
| WordService.TextClause | src/services/word_service.rs:84-88 | "true" exactly for empty text. Otherwise "body LIKE " followed by a literal that reads back as the text followed by "%". |
| WordService.TextClauseAsWritten | src/services/word_service.rs:84-88 | "true" exactly for empty text. For text without a quote it is the escaped clause. |
| WordService.TextClauseAsWrittenQuoteBreaks | src/services/word_service.rs:84-88 | For every search text that holds a quote, the literal after "body LIKE " no longer reads back as the text followed by "%". |
| WordService.StatusClauseRecoversStatuses | src/services/word_service.rs:90-94 | A non-empty status filter is "status IN (…)", and its items read back as the statuses, in order. |
| WordService.LoadStatusClauseRecoversLoadStatuses | src/services/word_service.rs:96-100 | A non-empty load-status filter is "load_status IN (…)", and its items read back as the load statuses, in order. |
| WordService.DifficultyClauseRecoversDifficulties | src/services/word_service.rs:102-109 | A non-empty difficulty filter is "difficulty IN (…)", and its items parse back as the difficulties, in order. |
| WordService.StatusClause | src/services/word_service.rs:90-94 | "true" exactly when no status is given. |
| WordService.LoadStatusClause | src/services/word_service.rs:96-100 | "true" exactly when no load status is given. |
| WordService.DifficultyClause | src/services/word_service.rs:102-109 | "true" exactly when no difficulty is given. |
| WordService.WhereClauseAsWritten | src/services/word_service.rs:84-129 | With no filters, the clause is four "true"s joined by " AND ". For search text without a quote it is the clause built with the escaped text filter. |
| WordService.WhereClause | src/services/word_service.rs:127-129 | With no filters, the clause is four "true"s joined by " AND ". |
| WordService.SearchViews | src/services/word_service.rs:168-179 | One word view per distinct word id, in first-appearance order. Each view is its first row's word, with that word's non-null definition rows, in row order. |
| WordService.SearchViewsFirstAppearance | src/services/word_service.rs:168-173 | Each view's word comes from the first row with that id, and the views keep the order in which the ids first appear. |
| WordService.SearchViewsCountDefinitions | src/services/word_service.rs:168-179 | The views hold as many definitions as there are rows with a definition. |
| WordService.GetAllVocs | src/services/word_service.rs:184-190 | Every voc of every definition appears exactly once, and nothing else. |
| WordService.GetAllVocsOrder | src/services/word_service.rs:184-190 | The vocs come in the order of their first appearance in the flattened lists. |
| WordService.LoadVocsToDefinitions | src/services/word_service.rs:215-240 | A failed parse gives no definitions. A failed fetch passes its error on. Otherwise each definition is kept in place and paired with the fetched voc whose short form is its first voc; it gets none when it has no voc or that voc was not fetched. |
| WordService.LoadVocsLastFetchedWins | src/services/word_service.rs:223 | When several fetched vocs share a short form, the last one is paired. |
| DbCommon.ToSqlValue | src/db/common.rs:3-12 | A string becomes a quoted literal; any other value is its display text, unquoted. |
| DbCommon.EscapeRoundTrip | src/db/common.rs:7-8 | Un-doubling the quotes recovers the original text. |
| DbCommon.EscapeQuotesNoQuote | src/db/common.rs:7-8 | Text without a quote is left unchanged by the escaping. |
| DbCommon.EscapeQuotesLonger | src/db/common.rs:7-8 | Escaping never shortens the text, and it lengthens every text that holds a quote. |
| DbCommon.ParsedIsRendering | src/db/common.rs:6-8 | Any literal that reads back as a text is that text's rendering. |
| DbCommon.UnescapeThenEscape | src/db/common.rs:7-8 | Text that un-doubles is exactly the escaping of its result, so its quotes come in adjacent pairs. |
| DbCommon.ToSqlValueRoundTrip | src/db/common.rs:6-8 | A rendered string reads back as itself, whatever quotes it holds. |
| DbCommon.ParseSqlStringOnlyRendering | src/db/common.rs:6-8 | Only the rendering of a text reads back as that text. |
| DbCommon.InQry | src/db/common.rs:14-20 | The field, " IN (", the items, ")"; no values give "field IN ()". |
| DbCommon.InQryRecoversStrings | src/db/common.rs:14-20 | Strings without commas can be read back from the list, one literal per value, in order. |
| DbWordDefinition.VocIdColumn | src/db/word_definition.rs:23-31 | "null" exactly when there is no voc or the first voc is unmapped; otherwise the column parses back to the first voc's id. |
| DbWordDefinition.VocIdColumnAsWritten | src/db/word_definition.rs:23-31 | With a voc, the column is the corrected one. Without vocs, the empty short is looked up: the column parses back to the id mapped to "" when there is one, and is "null" otherwise. |
| DbWordDefinition.FirstVocId | src/db/word_definition.rs:23-31 | Only the first voc is looked up; later vocs are ignored. |
| DbWordDefinition.EmptyMarksLookUpEmptyShort | src/db/word_definition.rs:23-31 | Without vocs, a map entry for "" yields an id instead of "null". |
| DbWordDefinition.AsWrittenDiffersOnlyWithoutMarks | src/db/word_definition.rs:23-31 | The two columns differ exactly when there are no vocs and "" is in the map. |
| DbWordDefinition.TupleExample | src/db/word_definition.rs:32-39 | The tuple layout: "('x', 'active', 0, 7, null)". |
| DbWordDefinition.TupleReadsBack | src/db/word_definition.rs:32-39 | A tuple for a comma-free definition splits into five fields: the definition between quotes and unescaped, the status "active", the order, the word id, and a voc column that is null exactly when no voc id is found. |
| DbWordDefinition.FieldReadsInt | src/db/word_definition.rs:32-39 | A number column, after its leading space, parses back to the number. |
| DbWordDefinition.VocFieldNull | src/db/word_definition.rs:28-31 | The voc column reads "null" exactly when no voc id is found. |
| DbWordDefinition.InsertTuples | src/db/word_definition.rs:19-41 | One tuple per definition, in input order, with the index as order and the same word id throughout. |
| DbWordDefinition.WordDefinitionInsertShape | src/db/word_definition.rs:19-42 | No definitions give the empty string. Otherwise the tuples are joined by ",": each new definition appends "," and its tuple. |
| DbWordDefinition.WordDefinitionInsert | src/db/word_definition.rs:19-42 | Empty exactly when there are no definitions; otherwise it starts with the first definition's tuple. |
| DbWordDefinition.WordDefinitionInsertAsWritten | src/db/word_definition.rs:19-42 | Empty exactly when there are no definitions; otherwise it starts with the first definition's tuple, built with the as-written voc column. |
| DbWordDefinition.InsertTuplesAsWritten | src/db/word_definition.rs:19-41 | One tuple per definition, in input order, with the index as order, the same word id throughout and the as-written voc column. |
| DbWordDefinition.WordDefinitionInsertAsWrittenShape | src/db/word_definition.rs:19-42 | No definitions give the empty string. Otherwise the as-written tuples are joined by ",": each new definition appends "," and its tuple. |
| DbWordDefinition.AsWrittenInsertAgrees | src/db/word_definition.rs:19-42 | When no definition without vocs meets a "" entry in the map, the as-written statement equals the corrected one. |
| DbWordDefinition.TupleOpens | src/db/word_definition.rs:32-33 | Every tuple opens with "('". |
| Migrator.OptToSqlValue | tools/migrator/src/main.rs:107-121 | None gives "null". A string reads back as itself from its quoted literal. Any other value is its display text. |
| Migrator.ToSqlValue | tools/migrator/src/main.rs:123-125 | The same rendering for a present value. |
| Migrator.ToSqlValueAgrees | tools/migrator/src/main.rs:107-125 | The migrator's copy renders every value exactly as the service's `to_sql_value` does. |
| Migrator.VecToMapLoop | tools/migrator/src/main.rs:40-53 | The insertion loop builds the reference map: every key is present, and a key's value comes from its last element. |
| Text.IntToStringRoundTrip | src/db/word_definition.rs:32-39 | The decimal text of a number parses back to the number. |
| Text.IntToStringInjective | src/db/word_definition.rs:32-39 | Distinct numbers have distinct decimal texts. |
| Text.NatToStringRoundTrip | src/common.rs:70 | The digits of a natural number read back as the number. |
| Text.SplitJoin | src/db/common.rs:14-20 | Splitting a `join` at its one-character separator gives the parts back, when no part contains the separator. |
| Text.JoinSplit | src/db/common.rs:8 | Joining the pieces of a split with the pattern gives the text back. |
| Text.JoinStartsWithFirst | src/db/word_definition.rs:41 | A join starts with its first part. |
| Text.ReplaceIsSplitJoin | src/db/common.rs:8 | `replace` equals splitting at the pattern and joining with the replacement. |
| Text.DeleteShrinks | src/services/wiki_parser_service.rs:167 | Deleting a pattern never lengthens the text and brings in no new character. |
| Text.ReplaceCharByChar | src/services/wiki_parser_service.rs:138 | Replacing one character by another keeps the length and changes exactly the occurrences. |
| Text.ReplaceAbsent | src/services/wiki_parser_service.rs:167 | A pattern that does not occur leaves the text unchanged. |
| Text.Trim | src/services/wiki_parser_service.rs:161 | The result has no whitespace at either end, and it is a slice of the input with only whitespace outside it. |
| Text.TrimBothEnds | src/services/wiki_parser_service.rs:161 | Trimming the start and then the end leaves the slice between the two whitespace runs. |
| Text.TrimTrimmed | src/services/wiki_parser_service.rs:161 | A text with no whitespace at either end is its own trim. |
| Text.TrimStartMatches | src/services/wiki_parser_service.rs:169 | The result is a suffix of the text that does not start with the pattern, and what was removed is the pattern repeated some number of times. |
| Text.Utf8Len | src/domain/word_definition.rs:18 | A text of n characters takes n to 4n bytes; one character takes its UTF-8 width. |
| Text.Utf8LenConcat | src/domain/word_definition.rs:18 | The byte length of a concatenation is the sum of the byte lengths. |
| Text.Utf8Width | src/domain/word_definition.rs:18 | One byte below U+0080, two below U+0800, three below U+10000, four above, each exactly. |
| Text.Utf8LenUniform | src/domain/word_definition.rs:18 | Characters of one width w take w bytes each. |
| Seqs.UniqueByFirst | src/services/game_service.rs:50 | De-duplication by key keeps the first element for each key, in first-appearance order. |
| Seqs.OrInsertIsUniqueBy | src/db/game.rs:195-197 | `entry(k).or_insert(v)`, applied in turn, keeps the first value for each key. |
| Seqs.SortBy | src/db/game.rs:239 | The result is sorted by the key and is a permutation of the input. |
| Seqs.MaxIndexByKey | src/domain/game.rs:177-188 | `max_by_key` returns a maximal element, and every later element is strictly smaller. |
| Seqs.CycleNthIsMod | src/domain/game.rs:130-135 | Skipping k elements of the endless cycle lands on element k mod n. |

## Left out

- SQL execution, transactions and the row mapping from `sqlx`. The queries of
  `src/db/*.rs` are not modelled; the game-view fold starts from the joined
  rows, and the catalogue functions start from rows already read.
- The fetch of vocs by short form (`db::voc::get_by_shorts`) is a parameter of
  `WordService.LoadVocsToDefinitions`, as an Ok list or an error.
  `src/db/voc.rs` is not part of this model, so the `Voc` record's shape
  (id, short, full) is taken from the migrator.
- `src/domain/team.rs` is not part of this model; a team is its id and name.
- The Wiktionary fetch and the html5ever DOM walk (`parse`, `find_node`,
  `find_nodes`, `get_all_text`, `get_definitions`,
  `get_definition_with_vocs`). They need a DOM; only the string pipeline and
  the empty-definition filter are modelled.
- The migrator's connection setup, concurrent chunked copy and progress
  output. Only `vec_to_map`, `opt_to_sql_value` and `to_sql_value` are
  modelled.
- Clocks (`Utc::now`, `NaiveDateTime`) are integer seconds, and the `Uuid`
  token is a parameter of `Games.NewGame`.
- `HashMap` iteration order is a parameter (`mapValues`) or, inside the fold,
  insertion order. The contracts state only order-independent facts: which
  entries exist, and that sorting gives a sorted permutation.
- The `unwrap` calls on optional columns of a row (`wr_result`, `w_body`, …) are
  not modelled. A word-result row carries all of its columns or none, so these
  panics cannot happen in the model.
- Panics on an empty team list: `get_current_team_result` unwraps, so
  `Games.CompleteRound` requires a team list once the gate is passed.
  `VortoResult::unwrap`/`expect` on Err, and `max_by_key` on an empty list,
  are preconditions too.
- `i32` widths other than a game's `turn` and `word_count` (ids, orders, round
  time, difficulty) are unbounded. `Games.CompleteRound` models the
  wrap-around of `turn + 1` as it is in a release build; a debug build panics
  there instead.
- Rust regex `\d` matches every Unicode decimal digit; the model treats it as
  ASCII 0-9. `trim` uses Unicode whitespace (`char::is_whitespace`).
- `validate_expired` fails only when `expired_at < now`, so a game can still be
  played at its expiry instant. `max_by_key` gives a tie to the last of the
  teams with the highest score. The model follows both.
- The word-count error text says "1-5000" while the check accepts 1 to 500;
  both are kept as written.
- WordService.WhereClause: its contract covers only the all-empty case; the
  joined filters are not restated, for the reasons given on the next line.
- WordService.WhereClauseAsWritten: its contract covers the all-empty case and
  its agreement with WhereClause for quote-free text. Each non-empty filter is
  covered by TextClause, TextClauseAsWritten and the three `…Recovers…`
  lemmas, and joining the four filters is not restated. The query as the
  program builds it uses WhereClauseAsWritten; WhereClause is the corrected
  variant of the finding below.
- WikiParser.ReplaceMarkers: its own contract states only that the text does
  not grow. The scan is stated step by step by MarkerReplaced, NoMarkerKept,
  ReplaceMarkersPlainPrefix and MarkerAfterPlain.
- Responses: the view records are data declarations only.

## Findings

| source | as written | input that shows it | evidently intended | confidence | as-written member | corrected member |
|---|---|---|---|---|---|---|
| src/db/game.rs:167-172 | The winner's `TeamView` is built from the row's own `t_id`/`t_name` columns. | A row of team A (t_id 100) in a game won by team B's team result (winner_t_id 200). | The winner's team comes from the `winner_t` columns the query selects for it. | not executed | GameViews.AsWrittenWinnerTeamIsWrong | GameViews.GameViewOf |
| src/services/word_service.rs:84-88 | The search text goes between quotes unescaped in `body LIKE '<text>%'`. | The text `x' OR 'a'='a`. | The text is rendered as a literal with its quotes doubled, as `to_sql_value` does. | not executed | WordService.TextClauseQuoteBreaksOut | WordService.TextClause |
| src/db/word_definition.rs:23-31 | A definition without vocs looks up the empty string in the id map. | No vocs, with a map holding "" ↦ 7: the column reads 7 instead of null. | A definition without vocs has a null voc id. | not executed | DbWordDefinition.EmptyMarksLookUpEmptyShort | DbWordDefinition.VocIdColumn |
