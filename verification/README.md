# Wordle and Absurdle game engine, modelled in Dafny

This project models the game engine of a multiplayer Wordle server
(`server/src/game`). The engine covers:

- the standard game, where each player guesses one hidden answer drawn from
  the word list;
- the Absurdle variant, where no answer is fixed. After every guess the game
  keeps the candidate words that give the player the least information
  (fewest Hits, then fewest Presents). It commits to a word only once a single
  candidate is left;
- the older single-file game (`server/src/game/wordle.ts`), which does not
  check the round budget;
- the per-player ledgers (guesses, round budget, Absurdle candidate list);
- the letter scorer (Hit / Present / Miss with duplicate-letter accounting);
- the guess validators and the Hit/Present tally;
- the shared scoreboard: per-player score, rounds and accuracy, and the
  top-N ranking.

Every class becomes an immutable datatype and every method a pure function.
A `guess` call returns a `Step`: the state after the call, plus either the
record it returned or the error it threw. A throw can follow a mutation
(a fresh ledger is stored before the round check), so the failed step carries
the post-state too.

Modules, one per engine file:

- `Wrappers`, `Seqs`, `Letters`, `Outcomes`: the result/option types, occurrence
  counts and subsequences, ASCII upper-casing, and the outcome and error types.
- `PlayerHistory`: the generic ledger `History<X>`. `X` is `()` for the
  standard and legacy games and the candidate state for Absurdle.
- `AbsurdleHistory`, `LegacyHistory`: the two ledger subclasses.
- `Validator`, `WordleUtil`: the static validators and the tally.
- `Scorer`: `calculateResult`, generic over the letter type. It is proved equal
  to a closed-form reference rule and also written as the two-pass loop.
- `AbstractGame`: construction, validation preamble, game-over bookkeeping and
  the shared tail of an accepted guess.
- `WordleGame`, `AbsurdleGame`, `Candidates`, `LegacyGame`: the three games.
  `Candidates` holds the Absurdle elimination. The legacy game's constructor
  and `restartGame` (`server/src/game/wordle.ts:117-121` and `:225-231`) do
  what the standard game's do, so `WordleGame.NewWordleGame` and
  `WordleGame.RestartGame` model both; only `guess` differs, in `LegacyGame`.
- `AbsurdleScenario`: the losing six-guess Absurdle game of the unit tests,
  played through the model.
- `NameOrder`, `Scoreboard`, `TopScores`: the scoreboard and its ranking.

## Model

| member | source | states |
|---|---|---|
| Letters.UpperChar | server/src/game/wordle/abstractWordleGame.ts:16 | a lower-case ASCII letter becomes the capital 32 code points below it; every other character is left alone |
| Letters.Upper | server/src/game/wordle/wordleGame.ts:71 | upper-casing keeps the length and maps each character independently |
| Letters.UpperIdempotent | server/src/game/wordle/wordleGame.ts:71 | upper-casing twice is the same as once |
| Letters.UpperOfCapitals | server/src/game/wordle/absurdleGame.ts:17 | a word already in capitals is unchanged by upper-casing |
| Letters.UpperAll | server/src/game/wordle/abstractWordleGame.ts:16 | the stored word list has one entry per configured word, each the upper-cased word of the same length |
| Outcomes.AllHitIffAllCounted | server/src/game/playerHistory/abstractPlayerHistory.ts:39-43 | a result is a win exactly when its Hits number as many as its letters |
| Validator.MatchesCapitals | server/src/game/wordleValidator.ts:3 | the pattern `^[A-Z]{n}$` accepts exactly the strings of length n made of capitals A-Z |
| Validator.ValidateGuessFormat | server/src/game/wordleValidator.ts:2-6 | no error exactly for n capital letters; any error is the format error |
| Validator.Includes | server/src/game/wordleValidator.ts:9 | `includes` is membership in the list |
| Validator.ValidateGuessInWordList | server/src/game/wordleValidator.ts:8-12 | no error exactly when the guess is listed; otherwise the not-in-list error |
| Validator.ValidateGameNotOver | server/src/game/wordleValidator.ts:14-18 | no error exactly while the game is not over; otherwise the game-over error |
| Validator.FormatExamples | server/src/game/wordleValidator.ts:2-6 | "APPLE" passes at length 5; a short word, a lower-case word and a word with a digit fail with the format error |
| WordleUtil.GetNumberOfHitAndPresent | server/src/game/wordle/wordleUtil.ts:4-19 | the tally counts exactly the Hits and exactly the Presents of the result |
| WordleUtil.TallyCoversEveryOutcome | server/src/game/wordle/wordleUtil.ts:8-18 | Hits plus Presents plus the Misses the tally skips make up the whole result |
| WordleUtil.AllHitIffFullHitTally | server/src/game/wordle/wordleUtil.ts:4-19 | a result is all Hits exactly when the Hit tally equals its length |
| PlayerHistory.NewHistory | server/src/game/playerHistory/abstractPlayerHistory.ts:8-10 | a new ledger has no guesses and its whole budget left |
| PlayerHistory.AddGuess | server/src/game/playerHistory/abstractPlayerHistory.ts:12-14 | appending raises the count by one, makes the record the last guess, and keeps the earlier records, the budget and the subclass state |
| PlayerHistory.Reset | server/src/game/playerHistory/abstractPlayerHistory.ts:32-34 | reset empties the records and keeps the budget and the subclass state |
| PlayerHistory.IsWon | server/src/game/playerHistory/abstractPlayerHistory.ts:39-43 | some record is all Hits; how it moves under an append is stated by `PlayerHistory.AddGuessEffect` |
| PlayerHistory.GetRemainingRounds | server/src/game/playerHistory/abstractPlayerHistory.ts:49-51 | the budget less the count, with no floor; stated by `PlayerHistory.CountsAgree` |
| PlayerHistory.HasRoundsLeft | server/src/game/playerHistory/abstractPlayerHistory.ts:53-55 | rounds remain; stated by `PlayerHistory.CountsAgree` as the count being below the budget |
| PlayerHistory.CountsAgree | server/src/game/playerHistory/abstractPlayerHistory.ts:20-55 | current round is the count plus one; remaining rounds plus the count is the budget; rounds are left exactly while the count is below the budget; there is a last guess exactly when there are guesses |
| PlayerHistory.AddGuessEffect | server/src/game/playerHistory/abstractPlayerHistory.ts:12-55 | after appending, the ledger is won exactly when it was won or the new record is all Hits; one round fewer remains and the round number moves on |
| PlayerHistory.ResetRestoresBudget | server/src/game/playerHistory/abstractPlayerHistory.ts:32-55 | after reset the whole budget is left, nothing is won, there is no last guess and the round is 1 |
| PlayerHistory.AddGuessesAppends | server/src/game/playerHistory/abstractPlayerHistory.ts:12-55 | a run of appends concatenates the records; once the count reaches the budget no rounds are left |
| AbsurdleHistory.NewAbsurdleHistory | server/src/game/playerHistory/absurdlePlayerHistory.ts:7-11 | a new Absurdle ledger holds the given candidates, no matched guess, no records and the whole budget |
| AbsurdleHistory.SetCandidateWords | server/src/game/playerHistory/absurdlePlayerHistory.ts:17-19 | replacing the candidates leaves records, budget and matched guess untouched |
| AbsurdleHistory.SetMatchedGuess | server/src/game/playerHistory/absurdlePlayerHistory.ts:21-23 | the matched guess is set; records and candidates stay |
| AbsurdleHistory.ResetKeepsCandidates | server/src/game/playerHistory/absurdlePlayerHistory.ts:3-11 | the inherited reset clears the records but does not restore the candidate list or the matched guess |
| LegacyHistory.NewLegacyHistory | server/src/game/playerHistory.ts:8-10 | a new legacy ledger has no records, its whole budget, and is lost from the start exactly when the budget is not positive |
| LegacyHistory.IsLost | server/src/game/playerHistory.ts:45-47 | the budget is spent and nothing is won; stated by `LegacyHistory.WonAndLostExclusive` and `LegacyHistory.LastRound` |
| LegacyHistory.WonAndLostExclusive | server/src/game/playerHistory.ts:39-54 | never both won and lost; lost exactly when no rounds remain and nothing is won |
| LegacyHistory.LastRound | server/src/game/playerHistory.ts:12-54 | on the last round an all-Hit record wins and any other record loses |
| Scorer.Mark | server/src/game/wordle/absurdleGame.ts:71-78 | the second pass marks Hit exactly where guess and answer agree |
| Scorer.Score | server/src/game/wordle/absurdleGame.ts:54-81 | the scored result has the word's length and Hits exactly at the agreeing positions |
| Scorer.Slots | server/src/game/wordle/absurdleGame.ts:58-59 | a word read over `wordLength` indices gives its letter inside the word and `undefined` past its end |
| Scorer.CalculateResult | server/src/game/wordle/absurdleGame.ts:54-81 | one outcome per index up to the word length; Hit exactly where both letters exist and agree or both are past the end |
| Scorer.CalculateResultLoop | server/src/game/wordle/wordleGame.ts:23-54 | the two-pass loop computes exactly the functional scorer |
| Scorer.MarkHits | server/src/game/wordle/wordleGame.ts:33-41 | pass one marks Hit where the letters agree and Miss elsewhere, and counts the answer's unmatched letters |
| Scorer.MarkPresents | server/src/game/wordle/wordleGame.ts:43-51 | pass two, run on the first pass's output, gives the functional marking |
| Scorer.UnmatchedCountsAnswerLeft | server/src/game/wordle/wordleGame.ts:33-41 | after pass one the count of a letter is the number of its answer copies not matched by a Hit |
| Scorer.MarkSpendsCounts | server/src/game/wordle/wordleGame.ts:43-51 | Presents of a letter are the lesser of its unmatched guess copies and the count available |
| Scorer.ScoreLetterBudget | server/src/game/wordle/wordleGame.ts:23-54 | Hits plus Presents of a letter are the lesser of its copies in guess and in answer, so duplicates are never over-credited |
| Scorer.ScorePresentBudget | server/src/game/wordle/wordleGame.ts:43-51 | Presents of a letter are the lesser of its unmatched copies in guess and in answer |
| Scorer.CountsStep | server/src/game/wordle/wordleGame.ts:43-51 | one step of pass two agrees with the reference rule at that position and keeps the count invariant |
| Scorer.MarkMatchesReference | server/src/game/wordle/absurdleGame.ts:71-78 | pass two from any position equals the reference rule from that position |
| Scorer.ScoreMatchesReference | server/src/game/wordle/absurdleGame.ts:54-81 | the scorer equals the closed-form rule: Hit on agreement, else Present exactly when fewer earlier unmatched guess copies exist than unmatched answer copies |
| Scorer.AbsentLetterMisses | server/src/game/wordle/absurdleGame.ts:71-78 | a guess letter that does not occur in the answer is a Miss |
| Scorer.NoSharedLetterAllMiss | server/src/game/wordle/absurdleGame.ts:54-81 | a guess with no letter of the answer scores all Misses |
| Scorer.CalculateResultOnWords | server/src/game/wordle/absurdleGame.ts:54-81 | on words of the configured length the padded scorer is the plain letter scorer |
| Scorer.LetterBudget | server/src/game/wordle/absurdleGame.ts:54-81 | for full-length words, Hits plus Presents of each letter are the lesser of its copies in guess and answer |
| Scorer.AllHitIffSameWord | server/src/game/wordle/wordleGame.ts:97 | for full-length words the result is all Hits exactly when guess and answer are the same word |
| AbstractGame.AllOfLength | server/src/game/wordle/abstractWordleGame.ts:50 | true exactly when every word has the given length |
| AbstractGame.ValidateWordList | server/src/game/wordle/abstractWordleGame.ts:47-55 | the empty list is refused as empty; otherwise the list passes exactly when all words share the first word's length |
| AbstractGame.NewCore | server/src/game/wordle/abstractWordleGame.ts:15-24 | construction fails as empty or mixed-length exactly in those cases; otherwise the list is upper-cased, the length is the first word's, the budget is kept and the game is open with no winner |
| AbstractGame.HandleGameOver | server/src/game/wordle/abstractWordleGame.ts:60-63 | the game is over from the given time on; the winner and word list stay |
| AbstractGame.SetIsGameOver | server/src/game/wordle/abstractWordleGame.ts:89-91 | only the over flag changes |
| AbstractGame.SetGameOverAt | server/src/game/wordle/abstractWordleGame.ts:97-99 | only the game-over time changes |
| AbstractGame.SetFirstWinnerId | server/src/game/wordle/abstractWordleGame.ts:105-107 | only the first winner changes |
| AbstractGame.GetPlayerCurrentRound | server/src/game/wordle/abstractWordleGame.ts:72-75 | round 1 for an unknown player, otherwise one past the player's count |
| AbstractGame.ResetPlayerHistories | server/src/game/wordle/abstractWordleGame.ts:85-87 | every player keeps a ledger with no records, the same budget and the same subclass state |
| AbstractGame.RandomIndex | server/src/game/wordle/wordleGame.ts:20 | `floor(random * len)` is a valid index of a non-empty list |
| AbstractGame.PickRandomAnswer | server/src/game/wordle/wordleGame.ts:19-21 | the drawn answer is a listed word |
| AbstractGame.Preamble | server/src/game/wordle/wordleGame.ts:71-82 | a guess passes exactly when its upper-cased form is n capitals, listed, and the game is open; each failure is the first check that fails, in the order `guess` runs its validators |
| AbstractGame.PreambleAcceptsListedCapitals | server/src/game/wordle/absurdleGame.ts:17-21 | a listed capital word passes the checks of an open game unchanged |
| AbstractGame.KeepFirstWinner | server/src/game/wordle/wordleGame.ts:99 | an earlier non-empty winner is kept; none or an empty id is replaced by the guesser |
| AbstractGame.RecordGuess | server/src/game/wordle/absurdleGame.ts:35-46 | the record is won exactly when all Hits; it is appended to the player's ledger; a win ends the game at the given time with the first winner kept; otherwise the game core is untouched |
| WordleGame.NewWordleGame | server/src/game/wordle/wordleGame.ts:11-17 | construction fails exactly as the shared construction does; on success there are no ledgers and the answer is a listed word |
| WordleGame.SetAnswer | server/src/game/wordle/wordleGame.ts:60-62 | the answer becomes the upper-cased word; nothing else changes |
| WordleGame.LedgerFor | server/src/game/wordle/wordleGame.ts:84-89 | the stored ledger, or a fresh one with the game's budget |
| WordleGame.Guess | server/src/game/wordle/wordleGame.ts:70-104 | a preamble failure leaves the game untouched; a guess that passes them is accepted exactly when the caller's ledger has rounds left; an accepted guess scores the upper-cased word against the answer and is won exactly when all Hits; answer, list and budget never change |
| WordleGame.RestartGame | server/src/game/wordle/wordleGame.ts:123-129 | no ledgers, game open with no winner, a new listed answer, same list and budget |
| WordleGame.NewGameInv | server/src/game/wordle/wordleGame.ts:11-17 | a constructed game satisfies the invariant: valid list, answer of the word length, every ledger within budget |
| WordleGame.GuessPreservesInv | server/src/game/wordle/wordleGame.ts:70-104 | any guess, accepted or refused, keeps the invariant, so no ledger ever exceeds its budget |
| WordleGame.NoRoundsLeftRejected | server/src/game/wordle/wordleGame.ts:84-93 | with no rounds left the guess is refused with the no-rounds error, yet the fresh ledger stays stored |
| WordleGame.AcceptedGuessEffect | server/src/game/wordle/wordleGame.ts:70-104 | an accepted guess appends one record, leaves other players alone, wins exactly on the answer, and a win ends the game with the first winner kept |
| WordleGame.OverGameRefusesAll | server/src/game/wordle/wordleGame.ts:76 | once over, every guess is refused and the game is unchanged |
| WordleGame.RestartKeepsInv | server/src/game/wordle/wordleGame.ts:123-129 | restart keeps the invariant |
| AbsurdleGame.NewAbsurdleGame | server/src/game/wordle/absurdleGame.ts:12-14 | construction fails exactly as the shared one does; on success no ledgers exist |
| AbsurdleGame.GetOrCreatePlayerHistory | server/src/game/wordle/absurdleGame.ts:147-154 | the stored ledger, or a fresh one whose candidates are the whole word list |
| AbsurdleGame.GetSingleCandidateResult | server/src/game/wordle/absurdleGame.ts:166-172 | one outcome per letter, all Hits exactly when the guess is the remaining candidate |
| AbsurdleGame.GetMultiCandidateResult | server/src/game/wordle/absurdleGame.ts:174-191 | fails with the no-candidates error exactly on an empty list; otherwise the new candidates are drawn in order from the old and the records stay |
| AbsurdleGame.Commit | server/src/game/wordle/absurdleGame.ts:35-46 | the record is returned and appended; the game ends exactly when it was over or the result is all Hits; a win stamps the end time and keeps the first winner, anything else leaves the game's bookkeeping as it was |
| AbsurdleGame.Turn | server/src/game/wordle/absurdleGame.ts:25-46 | a refused turn changes nothing; an accepted one needs rounds left |
| AbsurdleGame.Guess | server/src/game/wordle/absurdleGame.ts:16-49 | a preamble failure leaves the game untouched; an accepted guess is the upper-cased word |
| AbsurdleGame.TurnAccepted | server/src/game/wordle/absurdleGame.ts:25-46 | an accepted turn appends one record, keeps the budget, narrows the candidates to a non-empty subsequence, and ends the game exactly on a win |
| AbsurdleGame.MultiCandidateTurn | server/src/game/wordle/absurdleGame.ts:29-46 | with several candidates the outcome is the first survivor's result and the survivors become the candidate list |
| AbsurdleGame.SingleCandidateTurn | server/src/game/wordle/absurdleGame.ts:29-46 | with one candidate the guess is scored against it and the list stays |
| AbsurdleGame.RestartGame | server/src/game/wordle/absurdleGame.ts:140-145 | no ledgers, game open with no winner, same list, length and budget |
| AbsurdleGame.NewGameInv | server/src/game/wordle/absurdleGame.ts:12-14 | a constructed game satisfies the invariant: every ledger has a non-empty candidate list drawn from the word list |
| AbsurdleGame.NoRoundsLeftRejected | server/src/game/wordle/absurdleGame.ts:23-25 | with no rounds left the guess is refused and only the (possibly fresh) ledger is stored |
| AbsurdleGame.AcceptedGuessEffect | server/src/game/wordle/absurdleGame.ts:16-49 | an accepted guess appends one record, needed rounds left, narrows the candidates, leaves other players alone and ends the game exactly on a win |
| AbsurdleGame.TurnPreservesInv | server/src/game/wordle/absurdleGame.ts:25-46 | a turn keeps every candidate list non-empty and drawn from the word list |
| AbsurdleGame.TurnNeverExhausts | server/src/game/wordle/absurdleGame.ts:183-185 | with candidates left the no-candidates error is never thrown |
| AbsurdleGame.GuessPreservesInv | server/src/game/wordle/absurdleGame.ts:16-49 | every guess keeps the invariant and never throws the no-candidates error |
| AbsurdleGame.NoWinWhileAmbiguous | server/src/game/wordle/absurdleGame.ts:29-33 | while a candidate other than the guess remains among several, no guess wins |
| AbsurdleGame.SingleCandidateDecides | server/src/game/wordle/absurdleGame.ts:29-46 | guessing the last candidate wins and ends the game, keeping the first winner |
| AbsurdleGame.RestartGivesFreshLedgers | server/src/game/wordle/absurdleGame.ts:140-154 | after restart every player starts over with the whole word list, and the invariant holds |
| Candidates.Evaluate | server/src/game/wordle/absurdleGame.ts:197-211 | each candidate's record carries its result against the guess and the counts of its Hits and Presents |
| Candidates.EvaluateAll | server/src/game/wordle/absurdleGame.ts:197-211 | one record per candidate, in order |
| Candidates.Names | server/src/game/wordle/absurdleGame.ts:137 | the candidate names of the records, in order |
| Candidates.BucketMembers | server/src/game/wordle/absurdleGame.ts:193-227 | a record is in a tally's group exactly when it has that tally |
| Candidates.GroupBy | server/src/game/wordle/absurdleGame.ts:193-227 | the `forEach` fold into groups keyed by a tally; what it builds is stated by `Candidates.GroupByBuckets` |
| Candidates.GroupByBuckets | server/src/game/wordle/absurdleGame.ts:193-227 | grouping builds one non-empty group per tally that occurs, each the in-order records with that tally |
| Candidates.BucketSubseq | server/src/game/wordle/absurdleGame.ts:193-227 | each group keeps the records' order |
| Candidates.LowestKey | server/src/game/wordle/absurdleGame.ts:104-108 | the smallest tally is one that occurs and no record has less |
| Candidates.LowestGroup | server/src/game/wordle/absurdleGame.ts:104-108 | the lowest group is non-empty for non-empty input and is that tally's group |
| Candidates.PickRandomCandidateResult | server/src/game/wordle/absurdleGame.ts:229-237 | the draw fails exactly on an empty list and otherwise returns one of the records |
| Candidates.Eliminate | server/src/game/wordle/absurdleGame.ts:104-134 | the selection steps after evaluation; stated by `Candidates.EliminateSubseq`, `Candidates.EliminateMinimal`, `Candidates.NoPresentPreferred` and `Candidates.EliminateAtMostOne` |
| Candidates.GetRemainingCandidates | server/src/game/wordle/absurdleGame.ts:96-138 | evaluation then selection; stated by `Candidates.RemainingCandidatesSpec` |
| Candidates.EliminateSubseq | server/src/game/wordle/absurdleGame.ts:96-138 | survivors are drawn, in order, from the evaluated candidates |
| Candidates.EliminateShareTallies | server/src/game/wordle/absurdleGame.ts:104-134 | survivors are in the fewest-Hits group and share one Present count |
| Candidates.RemainingCandidatesSpec | server/src/game/wordle/absurdleGame.ts:96-138 | survivors are an in-order selection of the candidates, non-empty exactly when the input is, each scored against the guess, with no candidate having fewer Hits, and all sharing one tally |
| Candidates.EliminateMinimal | server/src/game/wordle/absurdleGame.ts:104-134 | survivors exist exactly when candidates do, have the fewest Hits and share their tallies |
| Candidates.NoPresentPreferred | server/src/game/wordle/absurdleGame.ts:114-121 | when several candidates tie on fewest Hits and one has no Present, all such no-Present candidates survive |
| Candidates.EliminateAtMostOne | server/src/game/wordle/absurdleGame.ts:111-134 | otherwise at most one survives, and it has the fewest Presents among the fewest-Hits group |
| Candidates.FewestPresentPick | server/src/game/wordle/absurdleGame.ts:124-134 | the Present step returns at most one record, with the fewest Presents |
| Candidates.NamesOfSubseq | server/src/game/wordle/absurdleGame.ts:137 | the names of an in-order selection are an in-order selection of the names |
| LegacyGame.Guess | server/src/game/wordle.ts:177-206 | the legacy guess passes the same checks; an accepted guess scores against the answer and is always appended to the caller's ledger, with no round check, and no other player's ledger changes; a win ends the game at that moment and keeps the first winner, anything else leaves the game's bookkeeping as it was |
| LegacyGame.BudgetNotEnforced | server/src/game/wordle.ts:177-206 | a player past the budget still gets a guess appended, leaving negative rounds and a lost-or-won ledger |
| LegacyGame.DiffersOnlyByRoundsCheck | server/src/game/wordle.ts:177-206 | the legacy and current guesses agree whenever the current one accepts, and the legacy one accepts where the current one refuses for want of rounds |
| AbsurdleScenario.NewGameStart | server/src/game/wordle/absurdleGame.spec.ts:103-226 | the eight-word, six-round game of the test constructs with the list as given |
| AbsurdleScenario.LosingGame | server/src/game/wordle/absurdleGame.spec.ts:103-226 | HELLO, WORLD, FRESH, CRAZY, QUITE and FANCY each give the outcomes and candidate lists the test expects, the game never ends, and a seventh guess is refused for want of rounds |
| NameOrder.NameLeTotal | server/src/game/scoreboard.ts:41 | any two names are ordered one way or the other |
| NameOrder.NameLeAntisymmetric | server/src/game/scoreboard.ts:41 | names ordered both ways are equal |
| NameOrder.NameLeTransitive | server/src/game/scoreboard.ts:41 | the name order is transitive |
| Scoreboard.CalculateAccuracy | server/src/game/scoreboard.ts:63-66 | no rounds, or no score, gives 0 |
| Scoreboard.AccuracyRoundsHalfUp | server/src/game/scoreboard.ts:63-66 | the accuracy is the percentage rounded to the nearest integer, halves upward |
| Scoreboard.AccuracyIsNearest | server/src/game/scoreboard.ts:63-66 | a value is the accuracy exactly when it is that nearest integer |
| Scoreboard.AccuracyAtMostHundred | server/src/game/scoreboard.ts:63-66 | with score at most rounds the accuracy is at most 100, and exactly 100 when every round scored |
| Scoreboard.IndexOf | server/src/game/scoreboard.ts:5 | the lookup finds the first entry with the id, and fails exactly when none has it |
| Scoreboard.GetScoreboardByPlayer | server/src/game/scoreboard.ts:32-34 | a found entry is on the board with the id; nothing is found exactly when no entry has it |
| Scoreboard.LookupFindsEntry | server/src/game/scoreboard.ts:32-34 | on a valid board, looking up an entry's id finds that entry |
| Scoreboard.GetOrInitiatePlayer | server/src/game/scoreboard.ts:7-18 | the returned entry is the one stored under the id; an existing entry is returned unchanged; otherwise a zeroed entry with the given name is appended |
| Scoreboard.GetOrInitiateKeepsValid | server/src/game/scoreboard.ts:7-18 | ids stay distinct and every stored accuracy agrees with its score and rounds |
| Scoreboard.FirstNameSticks | server/src/game/scoreboard.ts:7-18 | a second call under the same id, with any name, changes nothing and the first name stays |
| Scoreboard.Store | server/src/game/scoreboard.ts:22-23 | updating an entry in place keeps the board's ids in order |
| Scoreboard.StoreEffect | server/src/game/scoreboard.ts:22-23 | after the update the id finds the new entry and every other id finds what it found before |
| Scoreboard.StoreKeepsValid | server/src/game/scoreboard.ts:22-23 | storing a consistent entry keeps the board valid |
| Scoreboard.AddScore | server/src/game/scoreboard.ts:20-24 | the player under the id, found or created, is stored with one more point, the same rounds and name, and an accuracy that matches the new counts |
| Scoreboard.AddScoreEffect | server/src/game/scoreboard.ts:20-24 | the player's score goes up by one, rounds and name stay, the accuracy is recomputed, and no other player changes |
| Scoreboard.AddScoreKeepsValid | server/src/game/scoreboard.ts:20-24 | adding a point keeps the board valid |
| Scoreboard.AddRound | server/src/game/scoreboard.ts:26-30 | the player under the id, found or created, is stored with one more round, the same points and name, and an accuracy that matches the new counts |
| Scoreboard.AddRoundEffect | server/src/game/scoreboard.ts:26-30 | the player's rounds go up by one, score and name stay, the accuracy is recomputed, and no other player changes |
| Scoreboard.AddRoundKeepsValid | server/src/game/scoreboard.ts:26-30 | adding a round keeps the board valid |
| Scoreboard.Reset | server/src/game/scoreboard.ts:68-70 | after reset no player is found and the board is valid |
| TopScores.ShownBeforeTotal | server/src/game/scoreboard.ts:53-57 | the display order compares any two entries |
| TopScores.ShownBeforeTransitive | server/src/game/scoreboard.ts:53-57 | the display order is transitive |
| TopScores.PopsBeforeTotal | server/src/game/scoreboard.ts:38-42 | the heap order compares any two entries |
| TopScores.PopsBeforeTransitive | server/src/game/scoreboard.ts:38-42 | the heap order is transitive |
| TopScores.PopsBeforeIsNoBetter | server/src/game/scoreboard.ts:38-42 | what the heap pops first is never better by score then accuracy |
| TopScores.Insert | server/src/game/scoreboard.ts:53-57 | inserting adds exactly the one entry |
| TopScores.InsertSorted | server/src/game/scoreboard.ts:53-57 | inserting into a display-sorted list keeps it sorted |
| TopScores.SortForDisplay | server/src/game/scoreboard.ts:53-57 | sorting is a permutation |
| TopScores.SortForDisplaySorts | server/src/game/scoreboard.ts:53-57 | the sorted list is in display order and a permutation of the input |
| TopScores.FirstLeast | server/src/game/scoreboard.ts:47 | the popped entry is a least one under the heap order |
| TopScores.RemoveAt | server/src/game/scoreboard.ts:47 | popping removes exactly that entry, keeping the others in order |
| TopScores.PushMultiset | server/src/game/scoreboard.ts:44-50 | a push then an optional pop loses no entry: kept plus popped grow by the pushed one |
| TopScores.PushSizes | server/src/game/scoreboard.ts:44-50 | after each push the heap holds the lesser of the limit and the entries seen |
| TopScores.PushSelects | server/src/game/scoreboard.ts:44-50 | the heap invariant holds after one more entry |
| TopScores.PushOrder | server/src/game/scoreboard.ts:44-50 | every popped entry comes before every kept one in the heap order |
| TopScores.HeapSelect | server/src/game/scoreboard.ts:44-50 | the push-and-pop loop over the board in insertion order; its guarantee is stated by `TopScores.HeapSelectSelects` |
| TopScores.HeapSelectSelects | server/src/game/scoreboard.ts:44-50 | after the whole loop the heap holds the lesser of the limit and the board's size, and everything popped pops before everything kept |
| TopScores.GetTopScoresAsWritten | server/src/game/scoreboard.ts:36-58 | the ranking as written has the capped length, is in display order, comes from the board, and no omitted entry is better by score then accuracy than a listed one |
| TopScores.KeptAreBest | server/src/game/scoreboard.ts:44-57 | whatever the heap keeps, once sorted, is capped, in display order, drawn from the board, and at least as good by score then accuracy as everything it popped |
| TopScores.GetTopScores | server/src/game/scoreboard.ts:36-58 | the corrected ranking has the capped length, is in display order, comes from the board, and every listed entry is shown before every omitted one |
| TopScores.TieKeepsLaterName | server/src/game/scoreboard.ts:38-57 | on a full tie the display puts the earlier name first, yet the ranking as written keeps only the later name at limit 1, in either board order; the corrected ranking keeps the earlier name |
| TopScores.AliceAndBob | server/src/game/scoreboard.ts:38-57 | Alice and Bob on one point and 100% each, limit 1: the ranking as written lists Bob, the corrected one Alice |

## Left out

- Sockets, HTTP controllers, services and the module-level singletons of
  `server/src/game/index.ts` are outside the engine and not modelled.
- `Math.random()` becomes a real parameter `u` with `0 <= u < 1`. `new Date()`
  becomes an opaque time stamp parameter.
- `toUpperCase` is modelled for the ASCII letters a-z only. Other characters
  are left alone, so non-ASCII case mappings are not covered.
- `localeCompare` is modelled as code-point order (`NameOrder.NameLe`). Locale
  collation is not modelled.
- Error messages are one variant per message. The word length inside the
  format message is not kept.
- `server/src/game/wordle/wordleValidator.ts`, the validator the current
  games import, is not part of this model. Both games use the validator of
  `server/src/game/wordleValidator.ts` (module `Validator`), whose behaviour
  `server/src/game/wordle/wordleValidator.spec.ts` expects of the current one.
- `server/src/game/playerHistory/playerHistory.ts` is imported by the current
  standard game but is not part of this model. Its ledger is taken to be the
  generic `History<()>`.
- Read-only getters (`getWordLength`, `getPlayerHistory`,
  `getAllPlayerHistories`, `getIsGameOver`, `getGameOverAt`,
  `getFirstWinnerId`, `getGuessResults`) are field reads of the datatypes and
  have no members of their own.
- Scoreboard.CalculateAccuracy: rounds the exact percentage half-up, whereas
  `Math.round` rounds a double. The two differ where the double quotient falls
  just below a half; for example 29 of 200 gives 14.499999999999998 in double
  arithmetic, hence 14, while the model gives 15.
- TopScores.GetTopScoresAsWritten: the heap's pop among entries that tie on
  score, accuracy and name is modelled as the first such entry in insertion
  order. The library's own choice depends on its internal layout.
- TopScores.SortForDisplay: is a stable insertion sort. Only its result on
  entries that tie fully could differ from the engine's sort; the contracts
  do not speak about the order among fully tied entries.
- `getTopScores(limit)`: a non-integer limit is not modelled (the limit is an
  integer). The default of 10 is the constant `TopScores.DefaultLimit`.
- Scorer.MarkPresents: builds the result by appending rather than overwriting
  slots of a pre-filled array. It is proved equal to the functional marking.
- AbsurdleGame.GetMultiCandidateResult: the outcome returned is the first
  survivor's result, as `getMultiCandidateResult` does. The model does not claim the survivors
  share their full outcome pattern, only their Hit and Present counts.
- The winning Absurdle game of `absurdleGame.spec.ts` (lines 228-300) is not
  worked through. Its second guess meets a tie between HELLO and WORLD that
  the unmocked random draw settles. The model takes the draw as the parameter
  `u` and states what each draw gives (`AbsurdleGame.GetMultiCandidateResult`).
- Strings are sequences of Unicode scalar values, and a length counts them.
  The engine's `length` and `split("")` count UTF-16 code units, so the two
  agree only on text inside the Basic Multilingual Plane. Validated guesses
  are ASCII capitals, where they agree; an answer or word-list entry outside
  that plane is not covered.
- Class fields are taken to follow assignment semantics: a subclass field
  declared without an initialiser (`maxRounds` at
  `server/src/game/wordle/wordleGame.ts:8`, `playerHistories` at
  `server/src/game/wordle/absurdleGame.ts:10`) keeps the value the base
  constructor gave it. Under define semantics those fields would be reset to
  `undefined` after `super()`, which the model does not cover. The legacy
  game is unaffected either way: it assigns `maxRounds` itself at
  `server/src/game/wordle.ts:119`.

## Findings

| source | as written | input that shows it | evidently intended | confidence | as-written member | corrected member |
|---|---|---|---|---|---|---|
| server/src/game/scoreboard.ts:38-57 | the heap pops the alphabetically earlier name first when score and accuracy tie, yet the display lists tied names alphabetically, so the top-N drops the name that would be shown first | Alice and Bob, 1 point and 100% accuracy each, `getTopScores(1)` returns Bob | the first N entries of the display order (Alice) | not executed | TopScores.TieKeepsLaterName | TopScores.GetTopScores |
