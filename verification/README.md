# Exercise bank and test composer — a Dafny model

This project models the core of a single-page web application that Chilean
teachers use to keep a bank of exercises and assemble tests from it. The
application:

- stores exercises uploaded as `.docx`/`.pdf` files or loaded from a demo bank;
- reads the answer key and the skill out of each exercise's text;
- filters the bank and keeps an ordered selection;
- composes a student copy and a teacher copy ("pauta") of a test;
- runs a timed quiz ("game mode") over the selection;
- shows statistics over the selection.

The model is pure Dafny. It has immutable datatypes and total functions, and
lemmas relate the operations to each other.

| file | module | what it models |
|---|---|---|
| wrappers.dfy | Wrappers | `Option` |
| text.dfy | Text | JavaScript string helpers: `trim`, `toLowerCase`/`toUpperCase`, `includes`/`indexOf`, `replace` of the first occurrence, `split`, `String(n)`, character order standing for the default `sort` order |
| seqs.dfy | Seqs | `Array.prototype.filter` |
| types.dfy | Types | the records of `types.ts` |
| parser.dfy | Parser, ParserExample | `services/exerciseParser.ts`: the two regular expressions, their first-match semantics, and `parseExerciseContent` |
| store.dfy | Store | `context/ExerciseContext.tsx`: exercises, selection and settings |
| generator.dfy | Generator | `pages/Generator.tsx`: filter, OA list, OA reset, move up/down, select all, export file name |
| composer.dfy | Composer | `pages/Generator.tsx` `generateDocx`: the document as a sequence of blocks |
| game.dfy | Game | `pages/GameMode.tsx`: the quiz state machine |
| analysis.dfy | Analysis | `pages/AIAnalysis.tsx`: difficulty and skill statistics, `loadDemoData` |
| upload.dfy | Upload | `pages/Upload.tsx`: the file queue, the record built per file, the batch loop |
| demo.dfy | DemoLoader | `services/demoLoader.ts`: ids, file names, skipped and failed fetches |

## How the foreign parts are modelled

**External services become parameters.**

- mammoth's text and HTML extraction, `fetch` and `DOMParser` are inputs.
  - Upload: one `Option<Extraction>` per file; `None` stands for a read that throws.
  - DemoLoader: one `Fetch` outcome per manifest entry.
  - Composer: a `parseHtml` function from HTML to nodes.
- `dataURLToUint8Array` is a `decode` function that may fail.
- `Date.now()`/`Math.random()` ids are a sequence of given ids.
- The one-second interval timer is the `Tick` event.

**The regular expressions are decided exactly.**

- `answerRegex` and `skillRegex` are not delegated to a library.
  - `Parser.IsMatch` states what it is for a match to exist, with its label, separator, capture and line end.
  - `Parser.Preferred` states the backtracking preference.
  - `Parser.Find` is an executable search proved to return the leftmost, preferred match.
- `Parse` then follows `parseExerciseContent` step by step:
  - remove the first occurrence of the answer match's text;
  - then remove the skill match's text;
  - then trim.

**The selection behaviour is kept as written.**

- The store does not keep the selection inside the exercise list.
- `toggleSelection` accepts any id.
- `restoreDemoData` leaves the selection alone.
- `getSelectedExercises` drops ids that do not resolve.
- The model keeps all of this and proves the consequences: `Store.ToggleAcceptsUnknownId` and `Store.RestoreDemoDanglesSelection`.

**The game page is one state and seven events.**

- Each handler is a function on the state.
- `Game.Step` enables only the buttons the page renders in that state.
- `Game.Inv` holds on every reachable state (`Game.ReachableInv`).

### Where the code behaves differently than one might expect

- `parseExerciseContent` is not idempotent (`ParserExample.ParseNotIdempotent`).
  - The answer pattern finds the first `Clave:` line of `"Clave: A\nClave: B"`.
  - Only that line is removed, so the student text `"Clave: B"` is parsed as having metadata again.
- `addExercise` prepends and does not de-duplicate ids (`Store.AddExercise`).
- `reorderSelection` installs the given order unchecked (`Store.ReorderSelection`).
- The bundled database `MANUAL_DATABASE` is empty (constants.ts:8).
  - An empty saved store starts empty.
  - `restoreDemoData` empties the store.
- The exercise filter ignores the indicator field (Generator.tsx:69-81).
- Only the HTML path of the student copy hides answers (Generator.tsx:221-226).
  - It drops paragraphs containing `Respuesta:`, `Habilidad:` or `Solución:`.
  - A `Clave:` paragraph or a `Destreza:` paragraph stays visible, although the parser recognises both labels.
- The plain-text path filters nothing (Generator.tsx:253-258).
  - It prints every non-blank line of the parsed student text (`Composer.PlainPathKeepsEveryLine`).
  - When the parsed student text is empty it falls back to the raw text, so the student copy equals the teacher copy (`Composer.EmptyStudentTextShowsEverything`).
  - For `"Respuesta: A"` the parser removes the whole text, so the student copy prints the answer line (`Composer.AnswerLineReachesStudentCopy`).

## Model

| member | source | states |
|---|---|---|
| Text.Trim | services/exerciseParser.ts:37 | the result is trimmed and is a contiguous slice of the input with only whitespace cut on either side; trimming a trimmed string changes nothing |
| Text.TrimStart | services/exerciseParser.ts:37 | the result is a suffix of the input that starts with a non-whitespace character, and everything removed is whitespace |
| Text.TrimEnd | services/exerciseParser.ts:37 | the result is a prefix of the input that ends with a non-whitespace character, and everything removed is whitespace |
| Text.LineTerminatorIsWhitespace | services/exerciseParser.ts:11-12 | every line terminator is white space, so `\s` covers the `\n` that ends a match |
| Text.Lower | pages/Generator.tsx:75-77 | lower-casing keeps the length and maps each character on its own |
| Text.Upper | pages/Generator.tsx:189 | upper-casing keeps the length and maps each character on its own |
| Text.LowerIdempotent | services/demoLoader.ts:71 | lower-casing twice is lower-casing once; no upper-case letter survives |
| Text.LowerOfUpper | pages/Generator.tsx:75-77 | lower-casing erases any earlier upper-casing, so the case of a keyword does not matter |
| Text.IndexOf | services/exerciseParser.ts:26 | returns the first position where the pattern occurs, or none when it occurs nowhere |
| Text.IndexOfFrom | services/exerciseParser.ts:26 | the first occurrence at or after a start position, or none after it |
| Text.RemoveFirst | services/exerciseParser.ts:26 | `replace(text, "")` cuts exactly the first occurrence and leaves a string without it unchanged |
| Text.Split | services/demoLoader.ts:61 | `split` yields at least one piece and no piece contains the separator |
| Text.JoinSplit | pages/Generator.tsx:255 | joining the pieces of a split with the separator gives the original text back |
| Text.SplitWithoutSeparator | services/demoLoader.ts:61 | a text without the separator splits into itself alone |
| Text.NatToString | pages/Generator.tsx:282 | `String(n)` is a non-empty run of decimal digits with no leading zero |
| Text.NatToStringRoundTrip | pages/Generator.tsx:282 | reading the decimal digits of `String(n)` gives back `n` |
| Text.NatToStringInjective | pages/Generator.tsx:282 | different numbers print differently |
| Text.StrLtIrreflexive | pages/Generator.tsx:84-86 | the default sort order never puts a string before itself |
| Text.StrLtTransitive | pages/Generator.tsx:84-86 | the default sort order is transitive |
| Text.StrLtTotal | pages/Generator.tsx:84-86 | any two different strings are ordered one way or the other |
| Text.StrLtAsymmetric | pages/Generator.tsx:84-86 | two strings are never ordered both ways |
| Seqs.Filter | context/ExerciseContext.tsx:122-123 | `filter` keeps exactly the elements that pass, in order, each as often as in the input |
| Seqs.FilterNoDup | context/ExerciseContext.tsx:128-130 | filtering a list without duplicates gives a list without duplicates |
| Parser.SkipWs | services/exerciseParser.ts:11-12 | `\s*` consumes a maximal run of white space |
| Parser.SkipWsExact | services/exerciseParser.ts:11-12 | a whitespace run ending at a non-space character is what `\s*` consumes |
| Parser.ValueRunEnd | services/exerciseParser.ts:11-12 | the capture class is consumed greedily to its maximal end |
| Parser.LastEnd | services/exerciseParser.ts:11-12 | finds the longest end of the capture after which `(?:\n\|$)` succeeds |
| Parser.ValueFrom | services/exerciseParser.ts:11-12 | the backtracking search picks the earliest capture start and then the longest capture that can end a match |
| Parser.AfterLabel | services/exerciseParser.ts:11-12 | after a given label, returns the preferred completion of a match, or none when no completion exists |
| Parser.MatchFromAlt | services/exerciseParser.ts:11-12 | tries the label alternatives in order and returns the preferred match of the first alternative that matches |
| Parser.LabelsExclusive | services/exerciseParser.ts:11-12 | at one position at most one label alternative applies |
| Parser.MatchAt | services/exerciseParser.ts:11-12 | returns the preferred match starting at a position, or none when no match starts there |
| Parser.FindFrom | services/exerciseParser.ts:19-20 | scans forward and returns the leftmost preferred match at or after a position |
| Parser.Find | services/exerciseParser.ts:19-20 | `String.match` returns the leftmost preferred match, and returns nothing exactly when the pattern matches nowhere |
| Parser.FirstMatchUnique | services/exerciseParser.ts:19-20 | the first match is uniquely determined |
| Parser.MatchBounds | services/exerciseParser.ts:11-12 | a match is non-empty, lies inside the text, and its capture is a slice of the matched text |
| Parser.Parse | services/exerciseParser.ts:8-45 | metadata is reported exactly when either pattern matches; without metadata the defaults are `No definida` and the student text is the trimmed input; the student text is trimmed and never longer than the input |
| Parser.ParseFields | services/exerciseParser.ts:14-37 | the answer key and the skill are the trimmed captures of the first matches or `No definida`; the student text is the input with the answer match removed, then the skill match, then trimmed |
| Parser.ParseValueCharacters | services/exerciseParser.ts:11-30 | an answer key holds only letters, digits, white space and commas; a skill never contains a line break |
| Parser.TrimmedValueIn | services/exerciseParser.ts:22-34 | every character of a parsed value belongs to its pattern's capture class |
| ParserExample.TwoKeysAnswer | services/exerciseParser.ts:11-20 | in `"Clave: A\nClave: B"` the answer pattern matches the first line, including its newline |
| ParserExample.TwoKeysFirstMatch | services/exerciseParser.ts:11-20 | no other match of that text is the first one |
| ParserExample.TwoKeysNoSkill | services/exerciseParser.ts:12-20 | that text has no skill label |
| ParserExample.TwoKeysRemoval | services/exerciseParser.ts:26 | removing the first line leaves `"Clave: B"` |
| ParserExample.ParseNotIdempotent | services/exerciseParser.ts:19-37 | parsing the student text of `"Clave: A\nClave: B"` finds metadata again |
| Store.InitialState | context/ExerciseContext.tsx:44-76 | the app starts with nothing selected and default settings; a non-empty saved list is used as-is, while an empty or failed load starts with an empty store, since the bundled bank is empty |
| Store.InitialExercises | context/ExerciseContext.tsx:63-75 | a non-empty saved list is used as-is; a missing or empty one is replaced by the bundled bank |
| Store.DeleteExercise | context/ExerciseContext.tsx:121-125 | deletion removes the id from both the list and the selection and keeps every other entry with its multiplicity and order |
| Store.AddExercise | context/ExerciseContext.tsx:116-119 | the new exercise goes in front of the unchanged list, one longer, with no check for a repeated id; selection and settings are kept |
| Store.DeletePreservesSelectionInStore | context/ExerciseContext.tsx:121-125 | deletion keeps every selected id inside the store |
| Store.KeptAfterDelete | context/ExerciseContext.tsx:122 | deleting one id never loses another id |
| Store.AddPreservesSelectionInStore | context/ExerciseContext.tsx:116-119 | adding keeps every selected id inside the store |
| Store.DeleteUndoesAdd | context/ExerciseContext.tsx:116-125 | deleting the id just added gives the same state as deleting it without the add |
| Store.DeleteAllExercises | context/ExerciseContext.tsx:152-156 | clearing empties list and selection and keeps settings |
| Store.RestoreDemoData | context/ExerciseContext.tsx:158-161 | the list becomes the bundled bank, which holds no ids; selection and settings are kept |
| Store.RestoreDemoDanglesSelection | context/ExerciseContext.tsx:158-161 | with a non-empty selection, restoring leaves selected ids that name nothing in the store |
| Store.Toggle | context/ExerciseContext.tsx:127-131 | toggling a selected id removes every copy of it; toggling an unselected id appends it at the end |
| Store.ToggleTwiceAbsent | context/ExerciseContext.tsx:127-131 | toggling an unselected id twice restores the selection exactly |
| Store.ToggleTwicePresent | context/ExerciseContext.tsx:127-131 | toggling a selected id twice keeps the same ids but moves it to the end |
| Store.ToggleKeepsNoDup | context/ExerciseContext.tsx:127-131 | toggling never creates a duplicate id |
| Store.ToggleAcceptsUnknownId | context/ExerciseContext.tsx:127-131 | toggling an id not in the store puts a dangling id into the selection |
| Store.ToggleSelection | context/ExerciseContext.tsx:127-131 | the selection becomes the toggled selection: whether the id is selected flips, every other id keeps its multiplicity, and list and settings are untouched |
| Store.ClearSelection | context/ExerciseContext.tsx:137-139 | clearing empties the selection only |
| Store.ReorderSelection | context/ExerciseContext.tsx:133-135 | the new order replaces the selection unchecked; list and settings are kept |
| Store.FirstIndexOfId | context/ExerciseContext.tsx:144 | finds the first index at or after a position whose exercise has the id |
| Store.FindById | context/ExerciseContext.tsx:144 | `find` succeeds exactly for ids in the store and returns an exercise with that id |
| Store.FindByIdIsFirst | context/ExerciseContext.tsx:144 | `find` returns the earliest exercise carrying the id |
| Store.Materialize | context/ExerciseContext.tsx:141-146 | the selected exercises are, in selection order, the resolvable selected ids, each resolved by `find` |
| Store.GetSelectedExercises | context/ExerciseContext.tsx:141-146 | the ids of the result are the selected ids that resolve, in selection order; each result is the store's first exercise with that id |
| Store.SelectedWhenInStore | context/ExerciseContext.tsx:141-146 | when every selected id resolves, the ids of the selected exercises are the selection itself |
| Store.MaterializeComplete | context/ExerciseContext.tsx:141-146 | when every selected id resolves, the exercises shown are exactly the selection in order |
| Store.ReorderThenMaterialize | context/ExerciseContext.tsx:133-146 | after reordering to resolvable ids, the exercises come out in the new order |
| Store.MergeSettings | context/ExerciseContext.tsx:148-150 | each field takes the update's value when given and keeps the old one otherwise |
| Store.MergeSettingsLaws | context/ExerciseContext.tsx:148-150 | two partial updates equal one update with the later fields winning; repeating an update changes nothing; an empty update is the identity |
| Store.UpdateSettings | context/ExerciseContext.tsx:148-150 | fields given in the update take the given value, fields absent keep theirs; list and selection are untouched |
| Generator.FilteredExercises | pages/Generator.tsx:69-81 | the filtered list holds exactly the exercises that pass every non-empty filter, in store order and with their multiplicity |
| Generator.MatchesFilter | pages/Generator.tsx:69-81 | an empty filter passes every exercise; a non-empty subject, grade, OA or type filter passes only exercises with that value |
| Generator.KeywordIgnoresCase | pages/Generator.tsx:75-77 | the keyword filter gives the same list for a keyword in any letter case |
| Generator.EmptyFilterKeepsAll | pages/Generator.tsx:69-81 | with every filter empty the whole store is listed |
| Generator.InsertSorted | pages/Generator.tsx:84-86 | inserting keeps the list strictly sorted and adds exactly the new element |
| Generator.SortedDistinct | pages/Generator.tsx:84-86 | `[...new Set(xs)].sort()` is strictly sorted and has the same members as `xs` |
| Generator.StrictlySortedUnique | pages/Generator.tsx:84-86 | two strictly sorted lists with the same members are equal |
| Generator.OAsOf | pages/Generator.tsx:84-86 | collects exactly the OAs of exercises in the chosen subject and grade |
| Generator.AvailableOAs | pages/Generator.tsx:83-87 | the OA list is sorted, has no duplicates, and holds exactly the OAs of the chosen subject and grade |
| Generator.ResetOA | pages/Generator.tsx:89-93 | the OA filter is cleared exactly when it names an OA that is no longer available |
| Generator.ResetOAIdempotent | pages/Generator.tsx:89-93 | running the reset effect again changes nothing |
| Generator.MoveExercise | pages/Generator.tsx:99-106 | an in-range move swaps two neighbours and keeps the rest; an out-of-range move changes nothing; the ids are always a permutation |
| Generator.Swap | pages/Generator.tsx:102-104 | swapping exchanges the two positions and keeps every other element and the length |
| Generator.MoveBack | pages/Generator.tsx:99-106 | moving back the other way undoes a move |
| Generator.MoveVisibleAsWritten | pages/Generator.tsx:99-106 | the button applies the row index of the shown list to the raw selection, and the selection stays a permutation of itself |
| Generator.MoveVisibleAsWrittenMisses | pages/Generator.tsx:637-651 | with an unresolvable id in front, pressing "down" on the first row changes the selection but not the list shown |
| Generator.MoveVisible | pages/Generator.tsx:99-106 | the corrected move yields a selection of ids that all resolve |
| Generator.MoveVisibleSwapsRows | pages/Generator.tsx:99-106 | the corrected move swaps the two rows the user sees, or leaves the list alone at the edges |
| Generator.SwappedRows | pages/Generator.tsx:99-106 | resolvable rows whose ids were swapped are the swapped rows |
| Generator.SameIdsSameRows | context/ExerciseContext.tsx:143-145 | two resolved lists with the same ids are the same list |
| Generator.Unselected | pages/Generator.tsx:108-114 | the ids that "select all" adds are exactly the listed ids that were not selected, in list order |
| Generator.ToggleEachUnselected | pages/Generator.tsx:108-114 | toggling each unselected listed id keeps what was selected and adds only listed ids |
| Generator.ToggleEachAppends | pages/Generator.tsx:108-114 | toggling each unselected listed id appends them in list order |
| Generator.SelectAllSelectsEvery | pages/Generator.tsx:108-114 | "select all" keeps the old selection as a prefix and afterwards every listed exercise is selected |
| Generator.SelectAll | pages/Generator.tsx:108-114 | "select all" keeps every selected id and adds only ids of listed exercises |
| Generator.ReplaceWhitespaceRuns | pages/Generator.tsx:310 | `replace(/\s+/g, '_')` leaves no white space |
| Generator.ReplaceKeepsPlainText | pages/Generator.tsx:310 | a title without white space is left unchanged |
| Generator.WhitespaceRunIsUnderscore | pages/Generator.tsx:310 | a whole run of white space becomes a single `_` |
| Generator.ReplaceSplitsAtRun | pages/Generator.tsx:310 | a maximal whitespace run between two pieces becomes one `_`, and each piece is replaced on its own |
| Generator.ReplaceKeepsVisible | pages/Generator.tsx:310 | the visible characters of the title survive, in order |
| Generator.ExportFilename | pages/Generator.tsx:310 | the file name is the title with every whitespace run replaced by `_`, followed by `_Estudiante.docx` or `_Pauta.docx` according to the copy; it has no white space |
| Composer.Header | pages/Generator.tsx:172-198 | a page header exists exactly when a decodable logo or a school name is set; the school name appears upper-cased as its last paragraph |
| Composer.ImageRuns | pages/Generator.tsx:235-246 | a run is made for an image exactly when its source starts with `data:image` and decodes, with the decoded bytes, 400 by 300, at most one per source |
| Composer.ImageRunsInOrder | pages/Generator.tsx:235-246 | the runs are the decoded embeddable sources one for one, in source order |
| Composer.NodeBlocks | pages/Generator.tsx:221-251 | a paragraph or text node gives one paragraph, unless the student copy drops it for showing an answer; other nodes give nothing |
| Composer.NodeBlockText | pages/Generator.tsx:221-251 | a kept node's text is the node's text, or empty when it is only images |
| Composer.HtmlBlocks | pages/Generator.tsx:221-252 | the HTML path adds at most one paragraph per node |
| Composer.TeacherKeepsEveryNode | pages/Generator.tsx:221-252 | the teacher copy keeps one paragraph per paragraph or text node |
| Composer.StudentHidesAnswers | pages/Generator.tsx:221-252 | no paragraph of the student copy contains an answer or skill marker |
| Composer.StudentDropsExactly | pages/Generator.tsx:222-226 | a node is dropped from the student copy exactly when it shows a marker; the teacher copy drops none |
| Composer.PlainSource | pages/Generator.tsx:254 | the teacher copy prints the raw text; the student copy prints a non-empty parsed student text and otherwise the raw text; with parser output, the result is never longer than the raw text |
| Composer.BlankIsTrimEmpty | pages/Generator.tsx:257 | a line is skipped exactly when it trims to nothing |
| Composer.LineParas | pages/Generator.tsx:255-258 | every paragraph is a non-blank input line with spacing 50 |
| Composer.PlainBlocks | pages/Generator.tsx:255-258 | the plain-text path emits paragraphs without line breaks |
| Composer.PlainKeepsText | pages/Generator.tsx:255-258 | with no blank line, joining the paragraphs with newlines gives the text back |
| Composer.LineParasAllKept | pages/Generator.tsx:255-258 | no non-blank line is lost |
| Composer.LineParasKeepsNonBlank | pages/Generator.tsx:255-258 | the paragraphs show exactly the non-blank lines, in order and with their multiplicity |
| Composer.BlankLinesVanish | pages/Generator.tsx:257 | blank lines produce no paragraph |
| Composer.PlainPathKeepsEveryLine | pages/Generator.tsx:253-258 | without HTML, the student copy shows every non-blank line of its source text, answer lines included |
| Composer.EmptyStudentTextShowsEverything | pages/Generator.tsx:254 | without HTML and with an empty parsed student text, the student copy equals the teacher copy |
| Composer.AnswerLineReachesStudentCopy | pages/Generator.tsx:253-258 | an exercise whose text is `Respuesta: A` shows that answer line in the student copy |
| Composer.ContentBlocks | pages/Generator.tsx:216-259 | an exercise's content is only text paragraphs and image paragraphs, never a label or a spacer |
| Composer.Question | pages/Generator.tsx:206-262 | each question starts with its label, ends with a spacer, and holds only content in between |
| Composer.QuestionContent | pages/Generator.tsx:206-262 | between the label and the spacer a question holds exactly its exercise's content |
| Composer.QuestionLabels | pages/Generator.tsx:206-214 | the labels are `Pregunta 1:`, `Pregunta 2:`, … one per exercise in order |
| Composer.QuestionSpacers | pages/Generator.tsx:261 | there is one spacer per exercise |
| Composer.Questions | pages/Generator.tsx:206-262 | the questions hold only labels, content and spacers |
| Composer.SpecRows | pages/Generator.tsx:278-288 | one row per exercise with its number, skill and answer key, `N/A` when missing |
| Composer.SpecRowsNumbered | pages/Generator.tsx:282 | the row numbers read as 1, 2, 3, … |
| Composer.Compose | pages/Generator.tsx:165-307 | the document starts with title, course line and name line, and carries the computed header |
| Composer.ComposeLayout | pages/Generator.tsx:199-303 | the body is the three preamble blocks, then the questions in order, then the table part, and nothing else |
| Composer.SpecTablePresence | pages/Generator.tsx:264-303 | the table exists exactly in a teacher copy with the table enabled, and is then last, has the fixed header and holds the rows of the selected exercises in order |
| Composer.DocumentLabels | pages/Generator.tsx:206-214 | the whole document numbers the selected exercises 1 to n and has no other labels |
| Composer.OnlyQuestionsLabelled | pages/Generator.tsx:199-303 | the preamble and the table carry no question label |
| Game.Tick | pages/GameMode.tsx:58-68 | a run of the timer takes off exactly one second while the game is active, unrevealed and above zero; outside a running game or once revealed it changes nothing; it never makes the clock negative and never adds time |
| Game.Start | pages/GameMode.tsx:70-74 | starting arms the clock with the chosen time, leaves setup and activates the game |
| Game.Next | pages/GameMode.tsx:76-85 | before the last question it moves on with the answer hidden and a full clock; on the last one it finishes and stops |
| Game.Reveal | pages/GameMode.tsx:87-89 | revealing shows the answer, after which ticks change nothing |
| Game.Longer | pages/GameMode.tsx:127-132 | the "+" button adds 5 seconds, and "-" undoes it |
| Game.Shorter | pages/GameMode.tsx:126-129 | the "-" button never goes below 5 seconds |
| Game.PlayAgainAsWritten | pages/GameMode.tsx:164 | "play again" returns to setup on the first question, unfinished and inactive, but keeps the answer visibility and the clock |
| Game.PlayAgain | pages/GameMode.tsx:164 | the corrected "play again" is the same reset with the answer hidden |
| Game.Step | pages/GameMode.tsx:58-164 | a button that is not shown does nothing; only the time buttons change the chosen time; only start and play again change the setup flag |
| Game.InitialInv | pages/GameMode.tsx:14-22 | the initial state satisfies the game invariant |
| Game.StepInv | pages/GameMode.tsx:58-139 | every enabled event keeps the invariant: a valid time step, a non-negative clock, an index in range, finished implies revealed |
| Game.RunInv | pages/GameMode.tsx:58-139 | any sequence of events keeps the invariant |
| Game.ReachableInv | pages/GameMode.tsx:14-139 | every state reachable from the start satisfies the invariant |
| Game.CountdownReveals | pages/GameMode.tsx:58-68 | an armed clock reveals the answer after exactly its remaining seconds plus one tick, with the clock at zero, and the answer stays hidden on every earlier tick |
| Game.CountdownSteps | pages/GameMode.tsx:59-62 | k timer runs on an armed, unrevealed clock with at least k seconds left take off exactly k seconds and change nothing else |
| Game.IdleClock | pages/GameMode.tsx:59-66 | when the game is not active, as on the setup screen or after the end, timer runs change nothing |
| Game.FrozenWhileRevealed | pages/GameMode.tsx:58-68 | once revealed, ticks change nothing |
| Game.PlayThrough | pages/GameMode.tsx:76-89 | from any question of a running game, one reveal-and-next round per remaining question finishes the game on the last question with its answer shown |
| Game.TimeButtons | pages/GameMode.tsx:126-134 | the time buttons keep the time a multiple of 5, at least 5, and each press moves it by 5 when it can |
| Game.ReplayStartsRevealed | pages/GameMode.tsx:163-164 | after a finished game, "play again" then "start" shows the first answer at once and the clock never runs |
| Game.ReplayStartsFresh | pages/GameMode.tsx:163-164 | with the correction, a replay equals a fresh start with the chosen time and the clock reveals on time |
| Analysis.TotalAppend | pages/AIAnalysis.tsx:27-39 | totals add over concatenation |
| Analysis.CountDifficulty | pages/AIAnalysis.tsx:28-30 | a difficulty count is zero exactly when no exercise has that difficulty |
| Analysis.DifficultiesPartition | pages/AIAnalysis.tsx:27-31 | the three difficulty counts add up to the number of exercises |
| Analysis.NonZero | pages/AIAnalysis.tsx:31 | dropping zero entries keeps the total and the order, and leaves only positive values |
| Analysis.DifficultyData | pages/AIAnalysis.tsx:27-31 | the chart holds positive counts only, in Básica, Media, Avanzada order, summing to the number of exercises |
| Analysis.DifficultyDataEntries | pages/AIAnalysis.tsx:27-31 | a difficulty appears in the chart exactly when some exercise has it |
| Analysis.AllDifficulties | pages/AIAnalysis.tsx:27-30 | before filtering there is one entry per difficulty with its count |
| Analysis.SkillKey | pages/AIAnalysis.tsx:34 | the grouping key is never empty: a missing or empty skill counts as `No definida` |
| Analysis.Bump | pages/AIAnalysis.tsx:35 | counting one exercise adds one to the total and at most one new key |
| Analysis.BumpValueOf | pages/AIAnalysis.tsx:35 | counting one exercise raises exactly its key by one |
| Analysis.BumpDistinct | pages/AIAnalysis.tsx:33-37 | counting never duplicates a key |
| Analysis.SkillCounts | pages/AIAnalysis.tsx:33-37 | the skill counts add up to the number of exercises |
| Analysis.SkillCountsValueOf | pages/AIAnalysis.tsx:33-37 | the count stored under a key is the number of exercises with that key |
| Analysis.SkillCountsNames | pages/AIAnalysis.tsx:33-37 | keys are distinct, and a key is present exactly when some exercise has it |
| Analysis.SkillCountsCorrect | pages/AIAnalysis.tsx:33-39 | the skill chart has one entry per distinct key, each with its exact count, totalling the number of exercises |
| Analysis.SkillData | pages/AIAnalysis.tsx:33-39 | the skill chart is the skill count list: distinct keys, a key present exactly when some exercise has it, each with its exact positive count, totalling the number of exercises |
| Analysis.CountKeyPositive | pages/AIAnalysis.tsx:33-37 | every exercise's key is counted at least once |
| Analysis.FirstBatch | pages/AIAnalysis.tsx:69 | `slice(0, 8)` is the first eight exercises, or all of them when fewer |
| Analysis.ShownIffSelected | pages/AIAnalysis.tsx:68 | an exercise in the store is listed as selected exactly when its id is selected |
| Analysis.LoadDemoAppends | pages/AIAnalysis.tsx:65-76 | the demo button appends the unselected ids among the first eight exercises, in store order |
| Analysis.LoadDemoSelectsFirst | pages/AIAnalysis.tsx:65-76 | afterwards each of the first eight exercises is selected, and at most eight ids are added |
| Analysis.LoadDemo | pages/AIAnalysis.tsx:65-76 | the demo button keeps the resolvable selected ids and adds only ids among the first eight exercises |
| Analysis.AppendedCoversAll | pages/AIAnalysis.tsx:71-75 | appending the unselected ids covers every id and adds no more than there are ids |
| Upload.Drop | pages/Upload.tsx:45-61 | a drop appends exactly the `.docx`/`.pdf` files in order, whatever their letter case; the alert fires exactly when a non-empty drop has none |
| Upload.Pick | pages/Upload.tsx:28-33 | the picked files are appended after the queue, which is kept as its prefix |
| Upload.Acceptable | pages/Upload.tsx:51-53 | an accepted name is at least four characters long, since it ends in `.docx` or `.pdf` after lower-casing |
| Upload.LowerCaseNamesAcceptable | pages/Upload.tsx:51-53 | a name with a lower-case `.docx` or `.pdf` extension is accepted |
| Upload.RemoveFile | pages/Upload.tsx:63-65 | removing an index deletes that file and shifts the rest; an index outside the queue changes nothing |
| Upload.RemoveUndoesPick | pages/Upload.tsx:28-65 | removing the file just picked restores the queue |
| Upload.BuildRecordFields | pages/Upload.tsx:83-125 | the record carries the batch metadata, tag `lote`, parsed content, extracted text and HTML for a `.docx` and a placeholder for anything else, and a file type taken from the name |
| Upload.BuildRecord | pages/Upload.tsx:83-125 | the record has the given id, the file name, tag `lote` and the batch metadata; its HTML is non-empty only for a file read as a docx |
| Upload.FixedClassifiesAcceptable | pages/Upload.tsx:51-53 | with case-insensitive tests, every accepted file is read as exactly one of docx or pdf |
| Upload.FixedAgreesOnLowerCaseNames | pages/Upload.tsx:86 | the correction changes nothing for lower-case extensions |
| Upload.UpperCaseExtensionsMisread | pages/Upload.tsx:116 | `informe.PDF` is accepted but recorded as a docx with placeholder text; `guia.DOCX` is accepted but never converted |
| Upload.UpperCaseExtensionsFixed | pages/Upload.tsx:86-116 | with the correction, `informe.PDF` is a pdf and `guia.DOCX` is converted |
| Upload.Outcomes | pages/Upload.tsx:81-107 | each file either yields its built record or fails, following its extraction result |
| Upload.SucceededPrefix | pages/Upload.tsx:81-128 | counts the files handled before the first failure |
| Upload.Added | pages/Upload.tsx:81-128 | the exercises added are as many as the files before the first failure |
| Upload.AddAll | pages/Upload.tsx:81-128 | the loop adds one exercise per file before the first failure and reports success exactly when no file failed; selection and settings are kept |
| Upload.AddedAt | context/ExerciseContext.tsx:116-119 | the added exercises appear newest first |
| Upload.AddAllEffect | pages/Upload.tsx:81-128 | the loop prepends the records before the first failure, reports success exactly when there was none, and keeps selection and settings |
| Upload.RunBatchEffect | pages/Upload.tsx:76-140 | a batch adds the records before the first failure newest first; on success the queue is emptied and the status set; on failure the queue stays |
| Upload.RunBatch | pages/Upload.tsx:76-140 | an empty queue is a no-op; success empties a non-empty queue; failure keeps it; selection and settings are kept |
| Upload.ProcessBatch | pages/Upload.tsx:76-140 | the batch succeeds exactly when the queue is non-empty and every file reads; then the store grows by one exercise per file and the queue is emptied; on failure the queue stays |
| Upload.EmptyBatchIsNoOp | pages/Upload.tsx:77 | an empty queue does nothing |
| DemoLoader.IdChar | services/demoLoader.ts:60 | letters and digits are kept and every other character becomes `-` |
| DemoLoader.DemoId | services/demoLoader.ts:60 | the id is `demo-` followed by the path with each character mapped |
| DemoLoader.DemoIdEqual | services/demoLoader.ts:60 | two ids are equal exactly when the paths agree after mapping |
| DemoLoader.DemoIdCharacters | services/demoLoader.ts:60 | after the prefix the id holds only letters, digits and `-` |
| DemoLoader.DemoIdsCanCollide | services/demoLoader.ts:60 | two different paths can receive the same id |
| DemoLoader.SameIdAcrossSeparator | services/demoLoader.ts:60 | `dir/name` and `dir-name` are different paths with the same id |
| DemoLoader.DemoFilename | services/demoLoader.ts:61 | the file name is never empty and has no `/` |
| DemoLoader.LastPieceIsTail | services/demoLoader.ts:61 | the last piece of a split is the text after the last separator |
| DemoLoader.DemoFilenameIsLastSegment | services/demoLoader.ts:61 | the name is the last path segment, or `demo-file.docx` when that segment is empty |
| DemoLoader.DemoRecordFields | services/demoLoader.ts:59-73 | the record carries the entry's metadata, the extracted text and HTML, the parsed content and the lower-cased subject as its one tag |
| DemoLoader.DemoRecord | services/demoLoader.ts:59-73 | the record has the id and file name derived from the path, the extracted text and HTML, the parse of the text, the entry's subject, grade, OA, indicator, difficulty and type, and the lower-cased subject as its tag |
| DemoLoader.Outcomes | services/demoLoader.ts:31-56 | a failed response skips the entry, a throw aborts, and a success builds the record |
| DemoLoader.CountBuilt | services/demoLoader.ts:74 | counts the records built |
| DemoLoader.Collect | services/demoLoader.ts:31-83 | a completed loop returns one record per built entry, and completes only when no entry threw |
| DemoLoader.CollectCorrect | services/demoLoader.ts:31-83 | the loop aborts exactly when some entry throws; otherwise it returns exactly the built records |
| DemoLoader.CollectKeepsOrder | services/demoLoader.ts:31-78 | a completed loop returns the built records in manifest order, each as often as built |
| DemoLoader.OutcomesBuilt | services/demoLoader.ts:31-74 | a record is built exactly for an entry whose fetch succeeded |
| DemoLoader.OutcomesAborted | services/demoLoader.ts:31-83 | the loop aborts exactly when a fetch throws |
| DemoLoader.LoadDemoExercises | services/demoLoader.ts:18-84 | a missing manifest gives an empty list, and otherwise there is at most one record per entry |
| DemoLoader.LoadDemoExercisesEffect | services/demoLoader.ts:18-84 | a missing manifest or any throw gives an empty list; otherwise the result is exactly the records of the fetched entries, in manifest order and one per entry |

## Left out

- Persistence to IndexedDB (`openDB`, `saveToDB`, `deleteFromDB`, `clearDB`): the model keeps only the in-memory state, and the saved list is an input of `Store.InitialExercises`.
- The asynchronous load: while the load is pending the store is empty; `Store.InitialState` takes the load result directly.
- mammoth, `FileReader`, `fetch`, JSON decoding, `DOMParser`, the docx `Packer` and the download: these are foreign code, so their results are inputs.
- `dataURLToUint8Array`: an input `decode` function that may fail.
- Random and clock-based ids (`Date.now`, `Math.random`): these are inputs.
- The one-second interval: this is the `Tick` event. The 3-second reset of the upload status is left out.
- The Gemini feedback, the AI assistant, the settings page, routing, the sidebar and all rendering: these are outside the core.
- `cleanHtml` in the game page: it only affects display.
- The PDF and docx previews: display only.
- The initial subject and grade of the generator filter: these come from constant tables that are not part of this model.
- The binary fields `fileContent` and `originalFile`: the model carries no bytes for exercises.
- Console messages and alerts: omitted, except the drop alert, which `Upload.Drop` reports as a flag.
- The `isProcessing` and `isDragging` flags: display only.
- The picker's `accept` attribute: the browser applies it, so `Upload.Pick` takes the picked files as given.
- Text.Lower: maps only ASCII letters and `Ó`/`ó`. JavaScript's full Unicode case mapping is not modelled.
- Text.Upper: maps only ASCII letters and `Ó`/`ó`, for the same reason.
- DemoLoader.DemoId: treats a string as a sequence of characters. JavaScript's regex `replace` sees UTF-16 code units, so a character outside the Basic Multilingual Plane becomes two `-`.
- Analysis.SkillCounts: treats the accumulator as an empty map. The page counts into a plain `{}` object, so a skill named `constructor`, `toString` or `valueOf` starts from an inherited function and its count becomes a concatenated string, and a skill named `__proto__` never appears in the chart.
- SkillCountsCorrect: states exact counts for every key, which the page does not deliver for the prototype names listed above.
- SkillData: the same caveat applies to the chart entries.
- Text.StrLt: compares characters. JavaScript's default sort compares UTF-16 code units, so a character above U+FFFF sorts before one in U+E000..U+FFFF there but after it here.
- Analysis.SkillCounts: keeps entries in first-appearance order. JavaScript's `Object.entries` lists integer-like keys first in numeric order; only the chart order is affected.
- Generator.MoveExercise: requires `index < |sel|`. The page only calls it with the index of a rendered row.
- Composer.Compose: omits the heading levels and the centre alignment of the title and the table heading, the bold, size 24 and spacing before 200 / after 100 of the question labels, and the widths and borders of the table. It keeps the block structure (title, page break and heading included), the texts, the image sizes and the spacing values the properties use.
- Parser.Parse: `i` flag case folding covers ASCII letters and `Ó`/`ó` only.

## Findings

| source | as written | input that shows it | evidently intended | confidence | as-written member | corrected member |
|---|---|---|---|---|---|---|
| pages/GameMode.tsx:164 | "Jugar de Nuevo" resets finished, setup, index and active but not `isAnswerVisible`, which `handleNext` leaves `true` on the last question | finish a game, press "Jugar de Nuevo", then "Comenzar Juego": the first question shows its answer at once and the timer never runs | a replay starts like a fresh game, with the answer hidden | not executed | Game.ReplayStartsRevealed | Game.ReplayStartsFresh |
| pages/Generator.tsx:99-106 | the up/down buttons pass the row index of the shown list, but `moveExercise` uses it as an index into `selectedIds`, which may hold ids missing from the store | store {a, b}, selection ["x", "a", "b"]: "down" on row 0 gives ["a", "x", "b"] and the list still reads a, b | the two visible rows swap | not executed | Generator.MoveVisibleAsWrittenMisses | Generator.MoveVisibleSwapsRows |
| pages/Upload.tsx:86 | the drop filter accepts `.DOCX`/`.PDF` case-insensitively, but conversion and the file type test the extension case-sensitively | drop `informe.PDF`: recorded as docx with text "Documento PDF: informe.PDF"; drop `guia.DOCX`: never converted | classify with the same case-insensitive test | not executed | Upload.UpperCaseExtensionsMisread | Upload.UpperCaseExtensionsFixed |
