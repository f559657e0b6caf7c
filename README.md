# Quiz game session logic, modelled in Dafny

This project models the core of a live quiz game. A host creates a lobby for a
quiz and gets a four-digit PIN; players join the lobby by PIN under a display name.
The host starts, pauses and finishes the game. Players answer questions one at a
time: a correct answer moves them on, and a wrong one costs them a penalty of a
few seconds. A leaderboard ranks them as they go. Quiz content (questions, answer
options, penalties) is written in a content studio whose field rules decide what
can be published.

The model follows the program file by file, one Dafny module per source file:

- `GameActions`, `LobbyActions` and `PlayerActions` are the server actions.
  - They work on `Store.Database`, a class whose `lobbies`, `players` and
    `answers` maps stand for the three tables.
  - The actions are methods that change those maps, and their contracts state the
    whole new state of the store.
  - The pure parts are functions with lemmas about them. These are the answer
    verdict, the PIN drawing and the timestamp side effects of a status change.
- `Leaderboard` models the ranking hook: a map followed by a stable sort. The
  sort is proved to be a permutation, sorted, and stable.
- `GameContext` models the client reducer and the values derived from its state.
- `RealtimeLobby` models the live lobby view. `LobbyView` is a class whose methods
  are the change-event handlers.
- `PenaltyTimer` models the countdown shown after a wrong answer. `Countdown` is a
  class whose `Tick` stands for one interval tick.
- `QuestionCard` models three things:
  - the rewriting of video links by regular expression;
  - the card's submit handlers, as a class with the card's state;
  - the letters shown beside the options.
- `QuestionSchema`, `QuizSchema` and `AnswerOptionSchema` model the content
  studio's validation rules, initial values and previews.
- `Text` models the JavaScript string operations the code relies on:
  - `trim`, with ECMAScript's white space set;
  - `toLowerCase`;
  - `length` in UTF-16 code units;
  - the decimal rendering of numbers.
- `Content`, `Store` and `Basics` hold the shared data types.

Inputs the program takes from outside become parameters:

- The clock: `now`, in milliseconds since the epoch.
- `Math.random()` draws: `draws`, a sequence of reals in [0, 1).
- Ids the store assigns: `newId`.
- The quiz the content store returns: `quiz`, or `quizFound`. These stand for a
  found or an empty result only; a content fetch that fails is not modelled.
- Whether a database call fails. Writes: `upsertFails`, `updateFails`,
  `insertFails`. Reads: `readFails`, `queryFails`, `lobbyFails`, `playerFails`,
  `playersFail`. The code ignores the error of several reads, and the model
  shows what that costs: a correct answer can be overwritten
  (`GameActions.FailedReadOverwritesCorrectAnswer`), two active lobbies can get
  the same PIN (`LobbyActions.FailedQueryDuplicatesPin`), and a live session
  can be discarded (`PlayerActions.FailedQueryEndsLiveSession`).
- The error code of a rejected insert: `insertError`.
- What the session cookies hold: `playerCookie`, `pinCookie`.

Where the design description and the code disagree, the model follows the code.
The lemmas that show each difference are:

- **Status changes are not validated.** Any status can follow any other
  (`LobbyActions.UpdateLobbyStatus`). A finished lobby can be reopened
  (`LobbyActions.ReopeningSharesPin`).
- **Start time.** Every start overwrites `started_at`
  (`LobbyActions.ResumeRestampsStart`). Setting the status back to waiting leaves
  `paused_at` as it was.
- **PIN range.** PINs are 1000 to 9999, never with a leading zero
  (`LobbyActions.GeneratePin`). The code space 0000 to 9999 is not used.
- **Progress is not monotonic.** The question index is not checked against the
  player's current question. A correct answer to an earlier question moves the
  player back and erases their finish time (`GameActions.ProgressCanGoBack`).
- **Penalties.** A penalty is not enforced on the server; only the client counts
  it down. A configured penalty of 0 becomes 5 seconds
  (`GameActions.PenaltySeconds`). The studio's penalty field is a number with
  no integer rule, so a fraction of a second can be published and is applied
  as it is (`GameActions.HalfSecondPenalty`). A penalty of 0.0005 seconds
  costs no time (`GameActions.SubMillisecondPenaltyCostsNothing`).
- **Radio answers.** The first option whose normalised text equals the answer
  decides the verdict, not "the option flagged correct". An earlier wrong option
  with the same text hides a correct one
  (`GameActions.DuplicateOptionShadowsCorrectOne`).
- **Name uniqueness** is left to the store's unique constraint. The model passes
  it in as the insert's error code.
- **PIN uniqueness among active lobbies** holds only as long as it already held.
  - The collision check passes when two active lobbies share a PIN
    (`LobbyActions.SharedPinLooksFree`).
  - A PIN reused by a new lobby makes both lobbies unreachable by PIN
    (`LobbyActions.ReusedPinHidesLobby`).
- **Submission is not atomic.** The read, the upsert and the player update are
  sequential; the model claims no serialisation.
- **Generic failure messages.** Some failures return generic messages such as
  "Kunne ikke sende inn svaret".

## Model

| member | source | states |
|---|---|---|
| Text.Trim | frontend/app/actions/player.ts:27 | `trim` removes exactly the white space at both ends: the result is the slice of the input after its leading white space, with only white space after it, and neither of its ends is white space |
| Text.TrimUnique | frontend/app/actions/player.ts:27 | whatever is surrounded by white space and trimmed at both ends is the trim of the whole |
| Text.TrimIdempotent | frontend/app/actions/player.ts:27 | trimming twice is trimming once |
| Text.TrimEmptyIff | frontend/app/components/game/QuestionCard.tsx:27 | the trim is empty exactly when the string is all white space |
| Text.TrimIgnoresPadding | frontend/app/actions/game.ts:56 | white space added at either end does not survive `trim` |
| Text.TrimStartSkips | frontend/app/actions/player.ts:27 | removing leading white space from white space followed by non-space text gives that text |
| Text.TrimEndSkips | frontend/app/actions/player.ts:27 | removing trailing white space from text followed by white space gives that text |
| Text.ToLower | frontend/app/actions/game.ts:23 | `toLowerCase` maps each character on its own and keeps the length |
| Text.LowerCharKeepsWhiteSpace | frontend/app/actions/game.ts:23 | lower-casing a character neither creates nor removes white space |
| Text.TrimLowerCommute | frontend/app/actions/game.ts:23 | trimming and lower-casing commute: lower-casing then trimming equals trimming then lower-casing |
| Text.Normalize | frontend/app/actions/game.ts:23 | the normal form of an answer is its trimmed form lower-cased, has no white space at either end, and is no longer than the answer |
| Text.NormalizeIgnoresPadding | frontend/app/actions/game.ts:23 | answers are compared without regard to white space at either end |
| Text.NormalizeIgnoresCase | frontend/app/actions/game.ts:29 | answers are compared without regard to case |
| Text.Utf16Length | frontend/app/actions/player.ts:32 | the length JavaScript reports lies between the number of characters and twice that |
| Text.NatToString | frontend/app/actions/lobby.ts:10 | `toString` of a non-negative integer is a non-empty string of digits with no leading zero except for 0 itself |
| Text.DecimalRoundTrip | frontend/app/actions/lobby.ts:10 | reading the decimal rendering of n back gives n |
| Text.FourDigits | frontend/app/actions/lobby.ts:10 | every number from 1000 to 9999 is written with four digits |
| Content.Required | studio/src/schemaTypes/objects/answerOption.ts:14 | a required field passes exactly when it is present, and otherwise fails with the rule's own message |
| AnswerOptionSchema.TextRule | studio/src/schemaTypes/objects/answerOption.ts:14 | an option's text is required, with the message "Svartekst er påkrevd" |
| AnswerOptionSchema.InitialOption | studio/src/schemaTypes/objects/answerOption.ts:21 | a new option is not marked correct |
| AnswerOptionSchema.PreviewOf | studio/src/schemaTypes/objects/answerOption.ts:29-34 | the title is the text, or 'Tomt alternativ' when it is empty; the subtitle is '✓ Riktig svar' and the icon is shown exactly when the option is marked correct |
| AnswerOptionSchema.InitialOptionNeedsText | studio/src/schemaTypes/objects/answerOption.ts:14-33 | a new option fails validation until its text is entered, and previews as an empty, incorrect option |
| QuestionSchema.CountCorrect | studio/src/schemaTypes/objects/question.ts:163-165 | the count of correct options is at most the count of options, and it is zero exactly when no option is marked correct |
| QuestionSchema.OptionsRule | studio/src/schemaTypes/objects/question.ts:156-171 | only a radio question is constrained: it passes exactly when it has at least two options and at least one of them is marked correct; several correct options are allowed; the message names the rule that failed |
| QuestionSchema.CorrectAnswerRule | studio/src/schemaTypes/objects/question.ts:179-186 | a text question fails exactly when its correct answer is missing or empty; every other question passes |
| QuestionSchema.QuestionTextRule | studio/src/schemaTypes/objects/question.ts:66 | the question text is required |
| QuestionSchema.InitialQuestion | studio/src/schemaTypes/objects/question.ts:79 | a new question is a radio question |
| QuestionSchema.InitialMedia | studio/src/schemaTypes/objects/question.ts:120 | a new media block starts with an external video source |
| QuestionSchema.AtMostOneMediaFieldShown | studio/src/schemaTypes/objects/question.ts:107-178 | the image and audio fields each show alone; the video URL and video file are never both shown, and either one shows only with the video source choice; for every question type, the options and the correct-answer field are never both shown, and a radio question shows its options and hides the correct-answer field |
| QuestionSchema.PreviewOf | studio/src/schemaTypes/objects/question.ts:198 | the preview title falls back to 'Uten tittel' |
| QuestionSchema.PreviewKind | studio/src/schemaTypes/objects/question.ts:192-193 | the subtitle starts with 'Flervalg' exactly for a radio question; any other type reads 'Tekstsvar' alone, and a radio question without options reads 'Flervalg' alone |
| QuestionSchema.PreviewCounts | studio/src/schemaTypes/objects/question.ts:193-195 | for a radio question with options, the subtitle gives the number of options and of correct options, with 'riktig' when exactly one is correct and 'riktige' otherwise |
| QuizSchema.TitleRule | studio/src/schemaTypes/documents/quiz.ts:14 | the title is required |
| QuizSchema.PenaltyRule | studio/src/schemaTypes/documents/quiz.ts:22-34 | the penalty is a required number of seconds from 0 to 60, fractions included |
| QuizSchema.QuestionsRule | studio/src/schemaTypes/documents/quiz.ts:40-41 | the question list is required and must hold at least one question |
| QuizSchema.InitialQuiz | studio/src/schemaTypes/documents/quiz.ts:27 | a new quiz has a penalty of 5 seconds, which passes the penalty rule |
| QuizSchema.PreviewOf | studio/src/schemaTypes/documents/quiz.ts:46-50 | the title falls back to 'Uten tittel'; the subtitle is the number of questions (0 when absent) followed by ' sporsmal' whatever the count |
| Store.LobbyByPin | frontend/app/actions/lobby.ts:64-68 | a lookup by PIN with `.single()` yields a lobby exactly when exactly one lobby has the PIN, and then it yields that lobby |
| Store.ActiveLobbyByPin | frontend/app/actions/lobby.ts:31-36 | the collision query reports a row exactly when exactly one waiting, playing or paused lobby has the PIN |
| Store.SelectRoster | frontend/app/actions/lobby.ts:90-95 | the roster lists every non-kicked player of the lobby exactly once, nobody else, in ascending order of joining time |
| Store.Without | frontend/contexts/GameContext.tsx:80 | filtering by id keeps only players with another id, each one from the list |
| Store.WithoutKeeps | frontend/contexts/GameContext.tsx:80 | every player with another id survives the filter |
| Store.WithoutNothing | frontend/contexts/GameContext.tsx:80 | filtering out an id nobody has changes nothing |
| Store.WithoutIdempotent | frontend/contexts/GameContext.tsx:80 | removing twice is removing once |
| Store.WithoutAppend | frontend/contexts/GameContext.tsx:80 | filtering distributes over concatenation, so the order of the rest is kept |
| GameActions.SearchKeys | frontend/app/actions/game.ts:32-34 | the `find` callback compares each option's normalised text, and an option without text has no key |
| GameActions.FindFrom | frontend/app/actions/game.ts:32-34 | `find` returns the first option whose key matches, after options that all have a non-matching key; it returns no match only when every key is present and different; it raises an error only when some option has no text |
| GameActions.TextVerdict | frontend/app/actions/game.ts:27-29 | a text question accepts an answer exactly when it has a non-empty correct answer equal to the answer up to case and surrounding white space |
| GameActions.TextAnswerAccepted | frontend/app/actions/game.ts:23-29 | a text question accepts its own correct answer in lower case with any white space padding |
| GameActions.RadioFirstMatchDecides | frontend/app/actions/game.ts:30-35 | for a radio question, the first option whose normalised text equals the normalised answer decides: the answer is correct exactly when that option is marked correct |
| GameActions.RadioNoMatch | frontend/app/actions/game.ts:30-35 | a radio answer that matches no option is incorrect, never an error |
| GameActions.OtherQuestionsRejectEverything | frontend/app/actions/game.ts:26-36 | a question that is neither a text question with a correct answer nor a radio question with options accepts nothing |
| GameActions.PickedOptionVerdict | frontend/app/actions/game.ts:30-35 | when no two options share a normalised text, picking an option's text is correct exactly when that option is marked correct |
| GameActions.ShadowingQuestionIsValid | studio/src/schemaTypes/objects/question.ts:156-171 | the studio accepts a radio question with a wrong 'Oslo' before a correct 'oslo' |
| GameActions.DuplicateOptionShadowsCorrectOne | frontend/app/actions/game.ts:32-35 | for that question, the answer 'oslo' is judged incorrect: the first match decides |
| GameActions.Verdict | frontend/app/actions/game.ts:22-36 | a correct verdict means a text question whose correct answer equals the answer up to case and surrounding white space, or a radio question with an option of the answer's normalised text that is marked correct |
| GameActions.QuestionAt | frontend/app/actions/game.ts:18 | a question is found exactly when the quiz exists and the index lies within its question list |
| GameActions.ValidQuizIsJudgeable | frontend/app/actions/game.ts:18-36 | any quiz the studio can publish is judged without a runtime error, whatever the index and the answer |
| GameActions.PenaltySeconds | frontend/app/actions/game.ts:88 | an absent or zero penalty becomes 5 seconds; any other configured value, a fraction of a second included, is used as it is |
| GameActions.PenaltyIsPositive | frontend/app/actions/game.ts:88 | for publishable content the penalty is more than 0 and at most 60 seconds |
| GameActions.DateMillis | frontend/app/actions/game.ts:89 | `new Date(t)` keeps the whole milliseconds of t, truncated toward zero |
| GameActions.PenaltyEnd | frontend/app/actions/game.ts:88-89 | the stored penalty end is the answer time plus the penalty in milliseconds, cut to whole milliseconds |
| GameActions.WholeSecondPenaltyEnd | frontend/app/actions/game.ts:89 | a penalty of n whole seconds ends exactly n·1000 ms after the answer |
| GameActions.PenaltyEndBounds | frontend/app/actions/game.ts:89 | the penalty end is no earlier than the answer and less than a millisecond short of the configured length |
| GameActions.HalfSecondPenalty | studio/src/schemaTypes/documents/quiz.ts:22-34 | a penalty of 0.5 passes the studio's rule, is applied as 0.5 seconds, and ends 500 ms after the answer |
| GameActions.SubMillisecondPenaltyCostsNothing | frontend/app/actions/game.ts:88-89 | a penalty of 0.0005 seconds passes the studio's rule and is not replaced by 5, but its end is the moment of the answer, so the wrong answer costs no time |
| GameActions.Advanced | frontend/app/actions/game.ts:69-78 | after a correct answer the player is on the next question, finished now exactly when that was the last question (otherwise the finish time is cleared), with no penalty, and nothing else changes |
| GameActions.Penalised | frontend/app/actions/game.ts:89-94 | after a wrong answer only the penalty end changes |
| GameActions.Upserted | frontend/app/actions/game.ts:52-60 | the answer of record holds the player, the index, the submitted text and the verdict; an existing row keeps its first answer time |
| GameActions.ProgressCanGoBack | frontend/app/actions/game.ts:67-78 | a player on question 7 who answers question 0 correctly goes back to question 1 and loses their finish time |
| GameActions.SubmitAnswer | frontend/app/actions/game.ts:8-102 | outcomes, in the code's order: no such question, an error and no write; already answered correctly and the read of that answer succeeds, an error and no write; a failed read passes for no answer; upsert fails, an error and no player change; otherwise the answer is upserted with the trimmed text and the verdict, and the player advances (correct) or is penalised (wrong) unless that update fails, which does not change the result; the penalty end is the answer time plus the penalty, truncated to whole milliseconds; while the read succeeds, a correct answer of record is never overwritten; lobbies are untouched |
| GameActions.FailedReadOverwritesCorrectAnswer | frontend/app/actions/game.ts:39-60 | when the read of the existing answer fails, a wrong resubmission replaces a correct answer of record with an incorrect one |
| GameActions.ClearPenalty | frontend/app/actions/game.ts:120-134 | only the player's penalty end is cleared; a failed update reports an error and changes nothing |
| GameActions.PlayerProgress | frontend/app/actions/game.ts:104-118 | the player's question, finish time and penalty end, or an error exactly when there is no such player or the read fails |
| LobbyActions.PinNumber | frontend/app/actions/lobby.ts:10 | a draw selects the floor of 1000 + 9000·r, which lies in 1000..9999 |
| LobbyActions.GeneratePin | frontend/app/actions/lobby.ts:9-11 | a PIN is four decimal digits, never with a leading zero, and reads back as the number drawn |
| LobbyActions.EveryPinReachable | frontend/app/actions/lobby.ts:9-11 | every number from 1000 to 9999 is the PIN of some draw |
| LobbyActions.NewLobby | frontend/app/actions/lobby.ts:47-51 | a new lobby is waiting, created now, neither started nor paused |
| LobbyActions.CreateLobby | frontend/app/actions/lobby.ts:13-58 | an unknown quiz gives an error; ten taken PINs give the exhaustion error; otherwise the first PIN the collision query lets through is used, and the lobby is inserted unless the insert fails; a failed collision query lets the first PIN drawn through unchecked; every error leaves the store unchanged; while the collision query works, active PINs that were unique stay unique |
| LobbyActions.FailedQueryDuplicatesPin | frontend/app/actions/lobby.ts:31-49 | a lobby inserted under an active lobby's PIN, as a failed collision query allows, leaves two active lobbies sharing that PIN |
| LobbyActions.FirstFreeDrawUnique | frontend/app/actions/lobby.ts:27-41 | the draw the retry loop settles on is determined by the draws and the store |
| LobbyActions.FreePinIsUnused | frontend/app/actions/lobby.ts:31-38 | where active PINs are unique, a PIN the collision query lets through belongs to no active lobby |
| LobbyActions.InsertKeepsPinsUnique | frontend/app/actions/lobby.ts:38-49 | inserting a lobby under a PIN the collision query let through keeps active PINs unique |
| LobbyActions.SharedPinLooksFree | frontend/app/actions/lobby.ts:31-38 | when two active lobbies already share a PIN, the collision query lets that PIN through |
| LobbyActions.GetLobbyByPin | frontend/app/actions/lobby.ts:61-75 | the lobby exactly when the query succeeds and one lobby, of any status, has the PIN; otherwise the not-found message |
| LobbyActions.ReusedPinHidesLobby | frontend/app/actions/lobby.ts:64-71 | once a finished lobby's PIN is reused by a new lobby, the lookup by PIN finds neither |
| LobbyActions.GetLobbyWithPlayers | frontend/app/actions/lobby.ts:77-98 | the lobby found by PIN with its roster (non-kicked players in joining order); a failed roster query gives an empty roster; a failed lobby query or no unique lobby gives 'Lobby ikke funnet' |
| LobbyActions.StatusUpdated | frontend/app/actions/lobby.ts:103-112 | playing stamps the start and clears the pause; paused stamps the pause; finished clears the pause; waiting sets only the status; nothing else changes |
| LobbyActions.UpdateLobbyStatus | frontend/app/actions/lobby.ts:100-125 | any status is written whatever the current one, with its timestamp effects; an unknown id changes nothing and still succeeds; a failed update reports an error and changes nothing |
| LobbyActions.ResumeRestampsStart | frontend/app/actions/lobby.ts:105-109 | pausing and resuming a running game moves its start time to the resume and keeps the pause cleared |
| LobbyActions.StatusUpdateIdempotent | frontend/app/actions/lobby.ts:103-112 | setting the same status twice at the same time is setting it once |
| LobbyActions.ReopeningSharesPin | frontend/app/actions/lobby.ts:100-117 | reopening a finished lobby whose PIN a new lobby reused leaves two active lobbies sharing a PIN, which the collision query then misses |
| PlayerActions.PinLobby | frontend/app/actions/player.ts:13-17 | the lobby a PIN names has that PIN and is stored |
| PlayerActions.CheckName | frontend/app/actions/player.ts:27-34 | a name is accepted exactly when its trimmed form is non-empty and at most 20 UTF-16 units long; the accepted name is the trimmed one; the message says which check failed |
| PlayerActions.AcceptedNameShape | frontend/app/actions/player.ts:27-34 | an accepted name has 1 to 20 characters, does not start or end with white space, and is the same with any white space padding |
| PlayerActions.NewPlayer | frontend/app/actions/player.ts:37-44 | a new player is in the lobby under the trimmed name, on the first question, neither finished, kicked nor penalised |
| PlayerActions.JoinLobby | frontend/app/actions/player.ts:9-67 | checks in the code's order: unknown PIN or a failed lobby query, lobby already started, empty name, name too long; an insert error 23505 means the name is taken and any other insert error is a generic failure; only success inserts the player; lobbies and answers are untouched |
| PlayerActions.JoinedPlayerIsFresh | frontend/app/actions/player.ts:23-44 | a joined player is on the roster of a waiting lobby, under a name of 1 to 20 characters |
| PlayerActions.Kicked | frontend/app/actions/player.ts:119 | a kick sets the kicked flag and nothing else |
| PlayerActions.KickIdempotent | frontend/app/actions/player.ts:114-128 | kicking twice is kicking once, and a kicked player is on no roster |
| PlayerActions.KickPlayer | frontend/app/actions/player.ts:114-128 | only the player's kicked flag changes; an unknown id changes nothing and succeeds; a failed update reports an error and changes nothing |
| PlayerActions.GetCurrentPlayer | frontend/app/actions/player.ts:69-112 | no id means no session; the session of an unknown or kicked player, or one whose player query fails, is discarded, flagged as kicked exactly when the query found the player; otherwise the player, its lobby when the lobby query finds it, and the remembered PIN |
| PlayerActions.KickedSessionRefused | frontend/app/actions/player.ts:94-98 | once kicked, a player's session is discarded as kicked |
| PlayerActions.FailedQueryEndsLiveSession | frontend/app/actions/player.ts:80-91 | a failed player query discards the session of a player who is present and not kicked |
| Leaderboard.ToEntry | frontend/hooks/useLeaderboard.ts:13-20 | an entry carries the player's id, name, question and finish time and the common question count, and is finished exactly when a finish time is set |
| Leaderboard.Entries | frontend/hooks/useLeaderboard.ts:12-20 | one entry per player, in the players' order |
| Leaderboard.Compare | frontend/hooks/useLeaderboard.ts:21-33 | finished players rank above unfinished ones; among finished players the earlier finish ranks higher; among the others the one further on ranks higher; equal times or questions tie |
| Leaderboard.ComparatorIsConsistent | frontend/hooks/useLeaderboard.ts:21-33 | the comparator is a total preorder with symmetric ties, so the sort is well defined |
| Leaderboard.Sort | frontend/hooks/useLeaderboard.ts:21-33 | the sort is a permutation of its input and orders it by the comparator |
| Leaderboard.Board | frontend/hooks/useLeaderboard.ts:10-35 | the board is the players' entries, ranked by the comparator |
| Leaderboard.BoardLists | frontend/hooks/useLeaderboard.ts:12-20 | the board lists every player once, kicked players included, each with the common question count and finished exactly when a finish time is set |
| Leaderboard.BoardOrder | frontend/hooks/useLeaderboard.ts:21-33 | finished players come before unfinished ones; finished players are ordered by finish time, earliest first; unfinished ones by question, furthest along first |
| Leaderboard.SortStable | frontend/hooks/useLeaderboard.ts:21-33 | entries that tie keep their input order |
| Leaderboard.BoardStable | frontend/hooks/useLeaderboard.ts:21-33 | players who tie on the board keep the order they were given in |
| GameContext.Merge | frontend/contexts/GameContext.tsx:64 | each field present in the patch overrides the player's, and every other field is kept |
| GameContext.MergeLaws | frontend/contexts/GameContext.tsx:64 | an empty patch changes nothing, and applying a patch twice is applying it once |
| GameContext.Reduce | frontend/contexts/GameContext.tsx:49-95 | each action changes only its own part of the state; setting the lobby, the quiz, the player or the player list replaces that field with the payload; removing a player keeps exactly the players with another id, in order |
| GameContext.UpdatesNeedTarget | frontend/contexts/GameContext.tsx:60-87 | a player patch merges into the current player and leaves an absent one absent; a status change touches only the lobby's status and leaves an absent lobby absent |
| GameContext.AddThenRemove | frontend/contexts/GameContext.tsx:71-81 | adding appends one player at the end with no duplicate check; removing the id afterwards removes every player with it, old entries included |
| GameContext.ResetAndUnknown | frontend/contexts/GameContext.tsx:89-93 | a reset returns the initial state, and an unknown action returns the state unchanged |
| GameContext.PublishedQuizStaysLoaded | frontend/contexts/GameContext.tsx:54-55 | a quiz the studio can publish carries its question list, so every action keeps the state readable while the quizzes it sets are publishable |
| GameContext.TotalQuestions | frontend/contexts/GameContext.tsx:103 | the question count is the quiz's, or 0 without a quiz |
| GameContext.CurrentQuestionIndex | frontend/contexts/GameContext.tsx:104 | the current player's question, or 0 without a player |
| GameContext.CurrentQuestion | frontend/contexts/GameContext.tsx:106-109 | there is a current question exactly when a quiz is loaded and the index is within its questions, and then it is the question at that index |
| GameContext.IsFinished | frontend/contexts/GameContext.tsx:111 | finished exactly when there is no current player or the current player has a finish time |
| GameContext.Progress | frontend/contexts/GameContext.tsx:113-114 | the progress is 0 without questions and lies between 0 and 100 while the index is within range |
| GameContext.PastTheEnd | frontend/contexts/GameContext.tsx:106-114 | a player past the last question has no current question and a progress of 100 |
| GameContext.InitialStateLooksFinished | frontend/contexts/GameContext.tsx:42-47 | before anything is loaded the state reads as finished, with no question |
| RealtimeLobby.Replaced | frontend/hooks/useRealtimeLobby.ts:119-121 | every entry with the updated id is replaced by the update, and every other entry is kept in its place |
| RealtimeLobby.ReplacedKeepsIds | frontend/hooks/useRealtimeLobby.ts:119-121 | the ids keep their order, an unknown id adds nobody, and replacing twice is replacing once |
| RealtimeLobby.RosterNoneKicked | frontend/hooks/useRealtimeLobby.ts:51-59 | the loaded roster lists no kicked player |
| RealtimeLobby.LobbyView.constructor | frontend/hooks/useRealtimeLobby.ts:30-33 | the view starts with no players, status waiting, not connected and no error |
| RealtimeLobby.LobbyView.Setup | frontend/hooks/useRealtimeLobby.ts:39-69 | with no lobby id nothing is loaded; a failed roster query sets the setup error; otherwise the roster is loaded (non-kicked, in joining order), then the status when its query succeeds, else the setup error |
| RealtimeLobby.LobbyView.OnLobbyUpdate | frontend/hooks/useRealtimeLobby.ts:82-86 | the status follows the lobby row and the change is reported |
| RealtimeLobby.LobbyView.OnPlayerInsert | frontend/hooks/useRealtimeLobby.ts:96-102 | a non-kicked player is appended at the end and reported, with no duplicate check; a kicked one is ignored |
| RealtimeLobby.LobbyView.OnPlayerUpdate | frontend/hooks/useRealtimeLobby.ts:112-124 | a kicked player loses every entry; any other update replaces the player's entries in place; the roster never shows a kicked player |
| RealtimeLobby.LobbyView.OnSubscribeStatus | frontend/hooks/useRealtimeLobby.ts:126-131 | connected exactly while subscribed; a channel error sets the connection error |
| RealtimeLobby.KickRemovesEveryEntry | frontend/hooks/useRealtimeLobby.ts:115-117 | after a kick no entry has the kicked id, and every other player stays |
| PenaltyTimer.CalculateRemaining | frontend/hooks/usePenaltyTimer.ts:22-27 | no penalty end means 0; otherwise the count is positive exactly when the end is in the future, and then it is the whole seconds to the end rounded up |
| PenaltyTimer.RemainingNeverGrows | frontend/hooks/usePenaltyTimer.ts:22-27 | as time passes the count never goes up |
| PenaltyTimer.FreshPenaltyShowsItsLength | frontend/hooks/usePenaltyTimer.ts:22-27 | a penalty of n seconds set now reads as n |
| PenaltyTimer.PenaltyEndsOnTime | frontend/hooks/usePenaltyTimer.ts:26 | once the end has passed the count is 0 |
| PenaltyTimer.Countdown.constructor | frontend/hooks/usePenaltyTimer.ts:19-20 | the countdown starts at 0, not in penalty, with no interval running |
| PenaltyTimer.Countdown.Start | frontend/hooks/usePenaltyTimer.ts:29-34 | the count is read once; the player is in penalty, and the interval runs, exactly when it is positive |
| PenaltyTimer.Countdown.Tick | frontend/hooks/usePenaltyTimer.ts:36-44 | a tick re-reads the count; at 0 the penalty ends, the interval stops and the end is reported; otherwise the penalty goes on |
| QuestionCard.FirstMatch | frontend/app/components/game/QuestionCard.tsx:145-147 | the regular expression matches at the leftmost position where the pattern text is followed by an id character |
| QuestionCard.RunEnd | frontend/app/components/game/QuestionCard.tsx:146 | the captured id is the longest run of id characters |
| QuestionCard.Capture | frontend/app/components/game/QuestionCard.tsx:145-153 | a capture exists exactly when the pattern matches somewhere, and then it is the greedy run after the leftmost match |
| QuestionCard.GetEmbedUrl | frontend/app/components/game/QuestionCard.tsx:143-159 | a YouTube match gives the YouTube player for its id with autoplay and mute; otherwise a Vimeo match gives the Vimeo player for its digits; otherwise the URL is returned unchanged |
| QuestionCard.WatchLinkEmbeds | frontend/app/components/game/QuestionCard.tsx:145-150 | a YouTube watch link is rewritten to the player for the same video |
| QuestionCard.ShortLinkEmbeds | frontend/app/components/game/QuestionCard.tsx:145-150 | a youtu.be link is rewritten to the player for the same video |
| QuestionCard.VimeoLinkEmbeds | frontend/app/components/game/QuestionCard.tsx:153-156 | a Vimeo link is rewritten to the Vimeo player for the same video |
| QuestionCard.NoYNoYouTube | frontend/app/components/game/QuestionCard.tsx:145-147 | text without a 'y' holds no YouTube link |
| QuestionCard.YouTubeTriedFirst | frontend/app/components/game/QuestionCard.tsx:145-157 | when both patterns occur, the YouTube link wins, wherever each stands |
| QuestionCard.OptionLabel | frontend/app/components/game/QuestionCard.tsx:132 | option i is labelled with character code 65 + i |
| QuestionCard.OptionLabelsDistinct | frontend/app/components/game/QuestionCard.tsx:119-132 | the first option is 'A', the first 26 are letters A to Z, and no two options share a label |
| QuestionCard.Card.constructor | frontend/app/components/game/QuestionCard.tsx:22-23 | a card starts with an empty answer and no option picked |
| QuestionCard.Card.Type | frontend/app/components/game/QuestionCard.tsx:104 | typing sets the answer field and nothing else |
| QuestionCard.Card.SubmitText | frontend/app/components/game/QuestionCard.tsx:25-31 | the untrimmed text is sent, and the field cleared, exactly when its trimmed form is non-empty and the card is enabled; otherwise nothing changes |
| QuestionCard.Card.SelectOption | frontend/app/components/game/QuestionCard.tsx:33-37 | a disabled card ignores the click; otherwise the option is marked and its text sent |
| QuestionCard.SubmitEnabled | frontend/app/components/game/QuestionCard.tsx:111 | the submit button is enabled exactly when a submission would be sent |
| QuestionCard.BlankNeverSent | frontend/app/components/game/QuestionCard.tsx:27 | an answer of white space only is never sent, and white space padding does not change whether an answer is sent |

## Left out

- Network and storage clients are left out: the Supabase and Sanity clients, the change channel's subscription and removal, and the revalidation route. The store is three maps. Whether a database call fails is a parameter of every action that makes one; a failed content-store fetch is not a parameter. Two of the database parameters are coarser than the code:
  - LobbyActions.CreateLobby: `queryFails` says that every collision query of the call fails. A query that fails only on a later attempt, after a collision, is not modelled.
  - LobbyActions.CreateLobby: the content store's quiz lookup is the parameter `quizFound`, and `quizFound = false` stands only for an empty result ('Quiz ikke funnet'). The content fetch has no error handling, so a failed fetch makes `createLobby` throw; that path is not modelled.
  - GameActions.SubmitAnswer: `quiz = None` stands only for an empty result ('Ugyldig sporsmal'). A failed content fetch makes `submitAnswer` throw; that path is not modelled.
- Concurrency is left out. The model runs each action alone. The read, the upsert and the player update of a submission are separate steps in the code, and no claim is made about interleaved calls.
- Cookies are left out: setting them on join, deleting them on a discarded session, and `clearPlayerSession`. Resolution takes the cookie values as parameters, and `CurrentPlayer.Discarded` stands for the deletion.
- Console logging is left out because it has no effect on state.
- Wall-clock time and ISO date strings are left out. Times are integer milliseconds, so invalid date strings do not arise.
- GameActions.SubmitAnswer: the content the code reads without a TypeError is a precondition, `SubmitDefined`. The code would throw on a quiz with no question list, or on a radio option without text that is reached before a match. `GameActions.ValidQuizIsJudgeable` shows that publishable content always meets this precondition.
- GameActions.SubmitAnswer: the answers table's foreign key is modelled as a failed upsert when the player row is missing. No other constraint of the store is modelled.
- LobbyActions.CreateLobby: the eleventh draw is computed by the loop but never used; the model takes it as a parameter and ignores it.
- LobbyActions.UpdateLobbyStatus: an unknown status string cannot be expressed, because the status is a datatype.
- GameContext.Progress: the percentage is a real number, not a floating-point double. The contract gives only its range, not its rounding.
- GameContext.CurrentQuestion: in the code, a negative question index reads `questions[-1]`, which is undefined. The model reports no question, since the screen treats both the same.
- GameContext.TotalQuestions, GameContext.CurrentQuestion, GameContext.Progress: a quiz without a question list is excluded by the precondition `QuizLoaded`; the code raises a TypeError on it. `GameContext.PublishedQuizStaysLoaded` shows that quizzes the studio can publish never break the precondition.
- GameActions.PenaltyEnd, GameActions.PenaltyEndBounds: the sum `Date.now() + penaltySeconds * 1000` is exact real arithmetic, not IEEE double arithmetic. Near present-day clock values a fraction within about 0.0001 ms of the next millisecond rounds up in the code, so the stored end can be one millisecond later than the model's (0.0009999 seconds gives now + 1 in the code and now in the model). The bound `PenaltyEnd <= now + seconds·1000` holds for the model only.
- GameActions.PenaltyEnd: a time beyond the range of JavaScript dates, where `toISOString` throws, is not modelled.
- GameContext.Merge: a patch that names a field with the value `undefined` is not distinguished from one that omits it.
- Text.ToLower: case mapping covers ASCII and the Latin-1 letters only. The full Unicode case mapping, including the characters whose lower case changes the length, is not modelled.
- Text.Utf16Length: the model counts characters outside the Basic Multilingual Plane as two code units. Dafny's `char` already excludes lone surrogates.
- QuestionCard.OptionLabel: the model covers only indices whose code 65 + i lies below the surrogate range. No quiz holds that many options.
- PenaltyTimer.Countdown.Tick: the interval's 100 ms schedule and the effect's cleanup are left out. Each tick is one call at a time the caller chooses.
- RealtimeLobby.LobbyView: the screen's callbacks are represented by the `Notification` values the handlers return.
- RealtimeLobby.LobbyView.Setup: the subscription itself is left out. Its status is fed to `OnSubscribeStatus`.
- Studio rendering is left out: media rendering, image and file uploads, the radio input component and icons. An option's preview icon is a boolean.
- Sanity's `required()` is modelled as a present field. The type system's own checks on field values are left out.
- The UI components, the emoji animations, the type-only files and the configuration files are left out because they hold no game logic.
