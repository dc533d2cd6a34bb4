/** `AbsurdlePlayerHistory`: the base ledger plus the player's list of
    answers still alive and a matched-guess slot. */
module AbsurdleHistory {
  import opened Wrappers
  import opened PlayerHistory

  datatype CandidateState = CandidateState(candidateWords: seq<string>, matchedGuess: Option<string>)

  type AbsurdleLedger = History<CandidateState>

  function NewAbsurdleHistory(maxRounds: int, candidateWords: seq<string>): (h: AbsurdleLedger)
    ensures GetCandidateWords(h) == candidateWords && GetMatchedGuess(h) == None
    ensures GetGuessCount(h) == 0 && GetRemainingRounds(h) == maxRounds
  {
    NewHistory(maxRounds, CandidateState(candidateWords, None))
  }

  function GetCandidateWords(h: AbsurdleLedger): seq<string> {
    h.extra.candidateWords
  }

  /** Replaces the candidate list; the records, the budget and the matched
      guess are untouched. */
  function SetCandidateWords(h: AbsurdleLedger, words: seq<string>): (h': AbsurdleLedger)
    ensures GetCandidateWords(h') == words
    ensures h'.guesses == h.guesses && h'.maxRounds == h.maxRounds
    ensures GetRemainingRounds(h') == GetRemainingRounds(h) && GetMatchedGuess(h') == GetMatchedGuess(h)
  {
    h.(extra := h.extra.(candidateWords := words))
  }

  function SetMatchedGuess(h: AbsurdleLedger, guess: string): (h': AbsurdleLedger)
    ensures GetMatchedGuess(h') == Some(guess)
    ensures h'.guesses == h.guesses && GetCandidateWords(h') == GetCandidateWords(h)
  {
    h.(extra := h.extra.(matchedGuess := Some(guess)))
  }

  function GetMatchedGuess(h: AbsurdleLedger): Option<string> {
    h.extra.matchedGuess
  }

  /** The inherited `reset` clears the records but leaves the candidate list
      as it was: it does not go back to the whole word list. */
  lemma ResetKeepsCandidates(h: AbsurdleLedger)
    ensures GetCandidateWords(Reset(h)) == GetCandidateWords(h)
    ensures GetMatchedGuess(Reset(h)) == GetMatchedGuess(h)
    ensures GetGuessCount(Reset(h)) == 0
  {
  }
}
