/** `WordleGame` (`server/src/game/wordle/wordleGame.ts`): one hidden answer
    drawn from the word list, every player guessing it within the round
    budget, the first all-Hit guess ending the game. Its ledger class lives
    in `server/src/game/playerHistory/playerHistory.ts`, which is not part
    of this model; it is taken to be the base ledger with nothing added. */
module WordleGame {
  import opened Wrappers
  import opened Letters
  import opened Outcomes
  import opened Scorer
  import opened PlayerHistory
  import opened AbstractGame

  /** The state of a standard game (also used by the legacy game). */
  datatype Wordle = Wordle(core: Core, histories: map<string, History<()>>, answer: string)

  /** The constructor: the shared construction, then an answer drawn with `u`. */
  function NewWordleGame(config: Config, u: real): (r: Result<Wordle, WordListError>)
    requires 0.0 <= u < 1.0
    ensures r.Failure? <==> NewCore(config).Failure?
    ensures r.Failure? ==> r.error == NewCore(config).error
    ensures r.Success? ==>
      && r.value.core == NewCore(config).value && r.value.histories == map[]
      && r.value.answer in r.value.core.wordList
  {
    match NewCore(config)
    case Failure(e) => Failure(e)
    case Success(c) => Success(Wordle(c, map[], PickRandomAnswer(c.wordList, u)))
  }

  /** `setAnswer`: the upper-cased word, whether or not it is in the list. */
  function SetAnswer(g: Wordle, answer: string): (g': Wordle)
    ensures GetAnswer(g') == Upper(answer)
    ensures g'.core == g.core && g'.histories == g.histories
  {
    g.(answer := Upper(answer))
  }

  function GetAnswer(g: Wordle): string {
    g.answer
  }

  function GetMaxRounds(g: Wordle): int {
    g.core.maxRounds
  }

  /** The ledger `guess` uses: the stored one, or a fresh one with the
      game's budget. */
  function LedgerFor(g: Wordle, userId: string): (h: History<()>)
    ensures userId in g.histories ==> h == g.histories[userId]
    ensures userId !in g.histories ==> h == NewHistory(g.core.maxRounds, ())
  {
    if userId in g.histories then g.histories[userId] else NewHistory(g.core.maxRounds, ())
  }

  /** `guess`, with `now` standing for the clock read on a win. The outcome
      is computed first, then the ledger is created if missing, then the
      rounds check can still refuse the guess. */
  function Guess(g: Wordle, userId: string, word: string, now: Stamp): (s: Step<Wordle>)
    ensures Preamble(g.core, word).Failure? ==> s == Step(g, Failure(Preamble(g.core, word).error))
    ensures s.outcome.Success? ==>
      && Preamble(g.core, word).Success?
      && s.outcome.value.guess == Upper(word)
      && s.outcome.value.results == CalculateResult(Upper(word), g.answer, g.core.wordLength)
      && s.outcome.value.isWon == AllHit(s.outcome.value.results)
    ensures Preamble(g.core, word).Success? ==> (s.outcome.Success? <==> HasRoundsLeft(LedgerFor(g, userId)))
    ensures s.state.answer == g.answer
    ensures s.state.core.wordList == g.core.wordList && s.state.core.wordLength == g.core.wordLength
    ensures s.state.core.maxRounds == g.core.maxRounds
  {
    match Preamble(g.core, word)
    case Failure(e) => Step(g, Failure(e))
    case Success(guess) =>
      var results := CalculateResult(guess, g.answer, g.core.wordLength);
      var h := LedgerFor(g, userId);
      var hs := g.histories[userId := h];
      if !HasRoundsLeft(h) then Step(g.(histories := hs), Failure(NoRoundsLeft))
      else
        var rec := RecordGuess(g.core, hs, userId, h, guess, results, now);
        Step(Wordle(rec.core, rec.histories, g.answer), Success(rec.result))
  }

  /** `restartGame`: a new answer drawn with `u`, every ledger dropped, the
      game open again with no winner. */
  function RestartGame(g: Wordle, u: real): (g': Wordle)
    requires 0.0 <= u < 1.0
    requires |g.core.wordList| > 0
    ensures g'.histories == map[]
    ensures !g'.core.isGameOver && g'.core.gameOverAt == None && g'.core.firstWinnerId == None
    ensures g'.answer in g.core.wordList
    ensures g'.core.wordList == g.core.wordList && g'.core.maxRounds == g.core.maxRounds
  {
    Wordle(g.core.(isGameOver := false, gameOverAt := None, firstWinnerId := None), map[], PickRandomAnswer(g.core.wordList, u))
  }

  // ---------------------------------------------------------------------
  // Properties of whole turns

  /** What every constructed game keeps: a valid core, an answer of the
      game's length, and ledgers with the game's budget that never hold
      more records than the budget allows. */
  predicate Inv(g: Wordle) {
    && ValidCore(g.core)
    && |g.answer| == g.core.wordLength
    && forall v | v in g.histories ::
         g.histories[v].maxRounds == g.core.maxRounds && GetGuessCount(g.histories[v]) <= MaxOf(g.core.maxRounds, 0)
  }

  function MaxOf(a: int, b: int): int {
    if a >= b then a else b
  }

  lemma NewGameInv(config: Config, u: real)
    requires 0.0 <= u < 1.0
    requires NewWordleGame(config, u).Success?
    ensures Inv(NewWordleGame(config, u).value)
  {
  }

  /** Every call keeps the invariant, so no player ever records more guesses
      than the budget. */
  lemma GuessPreservesInv(g: Wordle, userId: string, word: string, now: Stamp)
    requires Inv(g)
    ensures Inv(Guess(g, userId, word, now).state)
  {
    var s := Guess(g, userId, word, now);
    if Preamble(g.core, word).Success? {
      var h := LedgerFor(g, userId);
      forall v | v in s.state.histories
        ensures s.state.histories[v].maxRounds == g.core.maxRounds
        ensures GetGuessCount(s.state.histories[v]) <= MaxOf(g.core.maxRounds, 0)
      {
        if v != userId {
          assert s.state.histories[v] == g.histories[v];
        }
      }
    }
  }

  /** A player who has used up the budget is refused; the call leaves only
      the ledger a first-time caller gets. */
  lemma NoRoundsLeftRejected(g: Wordle, userId: string, word: string, now: Stamp)
    requires Preamble(g.core, word).Success?
    requires !HasRoundsLeft(LedgerFor(g, userId))
    ensures Guess(g, userId, word, now).outcome == Failure(NoRoundsLeft)
    ensures Guess(g, userId, word, now).state == g.(histories := g.histories[userId := LedgerFor(g, userId)])
  {
  }

  /** An accepted guess appends exactly one record to the caller's ledger
      and changes no other; it ends the game exactly when the upper-cased
      guess is the answer, and then the caller becomes the first winner
      unless one is already recorded. */
  lemma AcceptedGuessEffect(g: Wordle, userId: string, word: string, now: Stamp)
    requires Inv(g)
    requires Guess(g, userId, word, now).outcome.Success?
    ensures var s := Guess(g, userId, word, now);
            && userId in s.state.histories
            && s.state.histories[userId].guesses == LedgerFor(g, userId).guesses + [s.outcome.value]
            && (forall v | v in g.histories && v != userId :: v in s.state.histories && s.state.histories[v] == g.histories[v])
            && (s.outcome.value.isWon <==> Upper(word) == g.answer)
            && (s.outcome.value.isWon ==>
                  && s.state.core.isGameOver && s.state.core.gameOverAt == Some(now)
                  && s.state.core.firstWinnerId == KeepFirstWinner(g.core.firstWinnerId, userId))
            && (!s.outcome.value.isWon ==> s.state.core == g.core)
  {
    AllHitIffSameWord(Upper(word), g.answer, g.core.wordLength);
  }

  /** A game that is over refuses every guess and stays as it is. */
  lemma OverGameRefusesAll(g: Wordle, userId: string, word: string, now: Stamp)
    requires g.core.isGameOver
    ensures Guess(g, userId, word, now).outcome.Failure?
    ensures Guess(g, userId, word, now).state == g
  {
  }

  /** A restart gives back a game with the invariant. */
  lemma RestartKeepsInv(g: Wordle, u: real)
    requires 0.0 <= u < 1.0
    requires Inv(g)
    ensures Inv(RestartGame(g, u))
  {
  }
}
