/** The legacy `PlayerHistory` used by the wired-in game. Its records,
    counts, rounds, win and reset are those of the base ledger (the same
    fields and the same bodies); it adds `isLost`. */
module LegacyHistory {
  import opened Outcomes
  import opened PlayerHistory

  type LegacyLedger = History<()>

  function NewLegacyHistory(maxRounds: int): (h: LegacyLedger)
    ensures GetGuessCount(h) == 0 && GetRemainingRounds(h) == maxRounds && !IsLost(h) == (maxRounds > 0)
  {
    NewHistory(maxRounds, ())
  }

  /** At least `maxRounds` records and none of them all Hit. */
  predicate IsLost(h: LegacyLedger) {
    |h.guesses| >= h.maxRounds && !IsWon(h)
  }

  /** A ledger is never both won and lost; it is lost exactly when the budget
      is spent without a win. */
  lemma WonAndLostExclusive(h: LegacyLedger)
    ensures !(IsWon(h) && IsLost(h))
    ensures IsLost(h) <==> GetRemainingRounds(h) <= 0 && !IsWon(h)
  {
  }

  /** A losing record on a ledger one round short of its budget loses it; a
      winning record wins it and it is not lost. */
  lemma LastRound(h: LegacyLedger, r: GuessResult)
    requires GetRemainingRounds(h) == 1 && !IsWon(h)
    ensures AllHit(r.results) ==> IsWon(AddGuess(h, r)) && !IsLost(AddGuess(h, r))
    ensures !AllHit(r.results) ==> IsLost(AddGuess(h, r))
  {
    AddGuessEffect(h, r);
  }
}
