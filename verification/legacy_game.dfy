/** The older `WordleGame` in `server/src/game/wordle.ts`, which is the
    one the server wires in. Construction, answers, restart and game-over
    bookkeeping are those of the standard game; its `guess` has no rounds
    check, and its ledger adds `isLost`. */
module LegacyGame {
  import opened Wrappers
  import opened Letters
  import opened Outcomes
  import opened Scorer
  import opened PlayerHistory
  import opened LegacyHistory
  import opened AbstractGame
  import opened WordleGame

  /** `guess` of the legacy game: validation, then the outcome against the
      answer, recorded in the caller's ledger however many rounds it holds. */
  function Guess(g: Wordle, userId: string, word: string, now: Stamp): (s: Step<Wordle>)
    ensures Preamble(g.core, word).Failure? ==> s == Step(g, Failure(Preamble(g.core, word).error))
    ensures Preamble(g.core, word).Success? ==>
      && s.outcome.Success?
      && s.outcome.value.guess == Upper(word)
      && s.outcome.value.results == CalculateResult(Upper(word), g.answer, g.core.wordLength)
      && s.outcome.value.isWon == AllHit(s.outcome.value.results)
      && userId in s.state.histories
      && s.state.histories[userId] == AddGuess(LedgerFor(g, userId), s.outcome.value)
      && (forall v | v in g.histories && v != userId :: v in s.state.histories && s.state.histories[v] == g.histories[v])
      && (s.outcome.value.isWon ==>
            && s.state.core.isGameOver
            && s.state.core.gameOverAt == Some(now)
            && s.state.core.firstWinnerId == KeepFirstWinner(g.core.firstWinnerId, userId))
      && (!s.outcome.value.isWon ==> s.state.core == g.core)
    ensures s.state.answer == g.answer && s.state.core.wordList == g.core.wordList
  {
    match Preamble(g.core, word)
    case Failure(e) => Step(g, Failure(e))
    case Success(guess) =>
      var results := CalculateResult(guess, g.answer, g.core.wordLength);
      var h := LedgerFor(g, userId);
      var rec := RecordGuess(g.core, g.histories, userId, h, guess, results, now);
      Step(Wordle(rec.core, rec.histories, g.answer), Success(rec.result))
  }

  /** Without a rounds check a valid guess is recorded even when the budget
      is spent: the ledger then holds more records than `maxRounds` and its
      remaining rounds go negative, while it counts as lost until some
      record is all Hit. */
  lemma BudgetNotEnforced(g: Wordle, userId: string, word: string, now: Stamp)
    requires Preamble(g.core, word).Success?
    requires userId in g.histories && GetRemainingRounds(g.histories[userId]) <= 0
    ensures var h' := Guess(g, userId, word, now).state.histories[userId];
            && GetGuessCount(h') == GetGuessCount(g.histories[userId]) + 1
            && GetRemainingRounds(h') < 0
            && (IsLost(h') <==> !IsWon(h'))
  {
  }

  /** Where the standard game refuses a guess for want of rounds, the legacy
      game accepts it and scores it the same way. */
  lemma DiffersOnlyByRoundsCheck(g: Wordle, userId: string, word: string, now: Stamp)
    ensures WordleGame.Guess(g, userId, word, now).outcome.Success? ==>
      Guess(g, userId, word, now) == WordleGame.Guess(g, userId, word, now)
    ensures WordleGame.Guess(g, userId, word, now).outcome == Failure(NoRoundsLeft) ==>
      Guess(g, userId, word, now).outcome.Success?
  {
    match Preamble(g.core, word)
    case Failure(_) =>
    case Success(guess) =>
      var h := LedgerFor(g, userId);
      if HasRoundsLeft(h) {
        var results := CalculateResult(guess, g.answer, g.core.wordLength);
        var r := GuessResult(guess, results, AllHit(results));
        assert g.histories[userId := h][userId := AddGuess(h, r)] == g.histories[userId := AddGuess(h, r)];
        assert RecordGuess(g.core, g.histories[userId := h], userId, h, guess, results, now)
            == RecordGuess(g.core, g.histories, userId, h, guess, results, now);
      }
  }
}
