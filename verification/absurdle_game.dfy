/** `AbsurdleGame` (`server/src/game/wordle/absurdleGame.ts`): every player
    starts with the whole word list as candidate answers, and each guess is
    scored against whichever candidates do worst, which become the new
    candidates. */
module AbsurdleGame {
  import opened Wrappers
  import opened Seqs
  import opened Letters
  import opened Outcomes
  import opened Scorer
  import opened PlayerHistory
  import opened AbsurdleHistory
  import opened AbstractGame
  import opened Candidates

  datatype Absurdle = Absurdle(core: Core, histories: map<string, AbsurdleLedger>)

  /** The constructor: the shared construction, no ledgers yet. */
  function NewAbsurdleGame(config: Config): (r: Result<Absurdle, WordListError>)
    ensures r.Failure? <==> NewCore(config).Failure?
    ensures r.Failure? ==> r.error == NewCore(config).error
    ensures r.Success? ==> r.value.core == NewCore(config).value && r.value.histories == map[]
  {
    match NewCore(config)
    case Failure(e) => Failure(e)
    case Success(c) => Success(Absurdle(c, map[]))
  }

  /** `getOrCreatePlayerHistory`: a newcomer's ledger has the game's budget
      and the whole word list as candidates. */
  function GetOrCreatePlayerHistory(g: Absurdle, userId: string): (h: AbsurdleLedger)
    ensures userId in g.histories ==> h == g.histories[userId]
    ensures userId !in g.histories ==>
      GetGuessCount(h) == 0 && h.maxRounds == g.core.maxRounds && GetCandidateWords(h) == g.core.wordList
  {
    if userId in g.histories then g.histories[userId] else NewAbsurdleHistory(g.core.maxRounds, g.core.wordList)
  }

  predicate IsSingleCandidate(h: AbsurdleLedger) {
    |GetCandidateWords(h)| == 1
  }

  /** `getSingleCandidateResult`: the guess scored against the first (only)
      candidate. It is called on a one-candidate ledger only; on an empty
      list `getSingleCandidateResult` would throw. */
  function GetSingleCandidateResult(guess: string, h: AbsurdleLedger, wordLength: nat): (r: seq<Outcome>)
    requires |GetCandidateWords(h)| > 0
    ensures |r| == wordLength
    ensures |guess| == wordLength && |GetCandidateWords(h)[0]| == wordLength ==>
      (AllHit(r) <==> guess == GetCandidateWords(h)[0])
  {
    var c := GetCandidateWords(h)[0];
    if |guess| == wordLength && |c| == wordLength then
      AllHitIffSameWord(guess, c, wordLength);
      CalculateResult(guess, c, wordLength)
    else
      CalculateResult(guess, c, wordLength)
  }

  /** `getMultiCandidateResult`: the ledger with its candidates narrowed to
      the survivors, and the outcome of the first survivor; the error when
      nothing survives. */
  function GetMultiCandidateResult(guess: string, h: AbsurdleLedger, wordLength: nat, u: real)
    : (r: Result<(AbsurdleLedger, seq<Outcome>), GuessError>)
    requires 0.0 <= u < 1.0
    ensures r.Failure? <==> |GetCandidateWords(h)| == 0
    ensures r.Failure? ==> r.error == NoCandidatesLeft
    ensures r.Success? ==>
      && IsSubseq(GetCandidateWords(r.value.0), GetCandidateWords(h))
      && r.value.0.guesses == h.guesses && r.value.0.maxRounds == h.maxRounds
      && |r.value.1| == wordLength
  {
    var rs := GetRemainingCandidates(guess, GetCandidateWords(h), wordLength, u);
    RemainingCandidatesSpec(guess, GetCandidateWords(h), wordLength, u);
    if |rs| == 0 then Failure(NoCandidatesLeft)
    else
      assert rs[0] in rs;
      Success((SetCandidateWords(h, Names(rs)), rs[0].result))
  }

  /** Appends the record and applies the win bookkeeping. */
  function Commit(g: Absurdle, userId: string, h: AbsurdleLedger, guess: string, results: seq<Outcome>, now: Stamp)
    : (s: Step<Absurdle>)
    ensures s.outcome == Success(GuessResult(guess, results, AllHit(results)))
    ensures s.state.histories == g.histories[userId := AddGuess(h, s.outcome.value)]
    ensures s.state.core.wordList == g.core.wordList && s.state.core.wordLength == g.core.wordLength
    ensures s.state.core.maxRounds == g.core.maxRounds
    ensures s.state.core.isGameOver == (g.core.isGameOver || AllHit(results))
    ensures AllHit(results) ==>
      s.state.core.gameOverAt == Some(now) && s.state.core.firstWinnerId == KeepFirstWinner(g.core.firstWinnerId, userId)
    ensures !AllHit(results) ==> s.state.core == g.core
  {
    var rec := RecordGuess(g.core, g.histories, userId, h, guess, results, now);
    Step(Absurdle(rec.core, rec.histories), Success(rec.result))
  }

  /** The part of `guess` after validation, once the caller's ledger `h`
      is in place: the rounds check, then scoring against one candidate or
      narrowing several. */
  function Turn(g: Absurdle, userId: string, h: AbsurdleLedger, guess: string, now: Stamp, u: real): (s: Step<Absurdle>)
    requires 0.0 <= u < 1.0
    ensures s.outcome.Failure? ==> s.state == g
    ensures s.outcome.Success? ==> HasRoundsLeft(h)
    ensures s.state.core.wordList == g.core.wordList && s.state.core.wordLength == g.core.wordLength
    ensures s.state.core.maxRounds == g.core.maxRounds
  {
    if !HasRoundsLeft(h) then Step(g, Failure(NoRoundsLeft))
    else if IsSingleCandidate(h) then
      Commit(g, userId, h, guess, GetSingleCandidateResult(guess, h, g.core.wordLength), now)
    else
      match GetMultiCandidateResult(guess, h, g.core.wordLength, u)
      case Failure(e) => Step(g, Failure(e))
      case Success((h', results)) => Commit(g, userId, h', guess, results, now)
  }

  /** `guess`, with `now` standing for the clock read on a win and `u` for
      the draw used when the worst candidates tie. The caller's ledger is
      created before the rounds check, so a refusal can still leave it. */
  function Guess(g: Absurdle, userId: string, word: string, now: Stamp, u: real): (s: Step<Absurdle>)
    requires 0.0 <= u < 1.0
    ensures Preamble(g.core, word).Failure? ==> s == Step(g, Failure(Preamble(g.core, word).error))
    ensures s.outcome.Success? ==> Preamble(g.core, word).Success? && s.outcome.value.guess == Upper(word)
  {
    match Preamble(g.core, word)
    case Failure(e) => Step(g, Failure(e))
    case Success(guess) =>
      var h := GetOrCreatePlayerHistory(g, userId);
      Turn(g.(histories := g.histories[userId := h]), userId, h, guess, now, u)
  }

  /** What an accepted turn does to the caller's ledger. */
  lemma TurnAccepted(g: Absurdle, userId: string, h: AbsurdleLedger, guess: string, now: Stamp, u: real)
    requires 0.0 <= u < 1.0
    requires Turn(g, userId, h, guess, now, u).outcome.Success?
    ensures var s := Turn(g, userId, h, guess, now, u);
            && s.state.histories == g.histories[userId := s.state.histories[userId]]
            && s.state.histories[userId].guesses == h.guesses + [s.outcome.value]
            && s.state.histories[userId].maxRounds == h.maxRounds
            && IsSubseq(GetCandidateWords(s.state.histories[userId]), GetCandidateWords(h))
            && (|GetCandidateWords(h)| > 0 ==> |GetCandidateWords(s.state.histories[userId])| > 0)
            && s.state.core.isGameOver == (g.core.isGameOver || s.outcome.value.isWon)
            && s.outcome.value.isWon == AllHit(s.outcome.value.results)
            && s.outcome.value.guess == guess
  {
    if IsSingleCandidate(h) {
      SubseqRefl(GetCandidateWords(h));
    } else {
      var r := GetMultiCandidateResult(guess, h, g.core.wordLength, u);
      assert Turn(g, userId, h, guess, now, u) == Commit(g, userId, r.value.0, guess, r.value.1, now);
      RemainingCandidatesSpec(guess, GetCandidateWords(h), g.core.wordLength, u);
    }
  }

  /** A turn with several candidates left and rounds to spare narrows the
      ledger to the survivors' words, appends the record, and reports the
      outcome of the first survivor. */
  lemma MultiCandidateTurn(g: Absurdle, userId: string, h: AbsurdleLedger, guess: string, now: Stamp, u: real)
    requires 0.0 <= u < 1.0
    requires HasRoundsLeft(h) && |GetCandidateWords(h)| > 1
    ensures var rs := GetRemainingCandidates(guess, GetCandidateWords(h), g.core.wordLength, u);
            var s := Turn(g, userId, h, guess, now, u);
            && |rs| > 0
            && s.outcome == Success(GuessResult(guess, rs[0].result, AllHit(rs[0].result)))
            && s.state.histories == g.histories[userId := AddGuess(SetCandidateWords(h, Names(rs)), s.outcome.value)]
            && (!AllHit(rs[0].result) ==> s.state.core == g.core)
  {
    RemainingCandidatesSpec(guess, GetCandidateWords(h), g.core.wordLength, u);
  }

  /** A turn with exactly one candidate left and rounds to spare keeps the
      candidate, appends the record, and reports the guess scored against
      that candidate. */
  lemma SingleCandidateTurn(g: Absurdle, userId: string, h: AbsurdleLedger, guess: string, now: Stamp, u: real)
    requires 0.0 <= u < 1.0
    requires HasRoundsLeft(h) && |GetCandidateWords(h)| == 1
    ensures var r := CalculateResult(guess, GetCandidateWords(h)[0], g.core.wordLength);
            var s := Turn(g, userId, h, guess, now, u);
            && s.outcome == Success(GuessResult(guess, r, AllHit(r)))
            && s.state.histories == g.histories[userId := AddGuess(h, s.outcome.value)]
            && (!AllHit(r) ==> s.state.core == g.core)
  {
  }

  /** `restartGame`: every ledger dropped, the game open again, no winner;
      the word list and budget are kept. */
  function RestartGame(g: Absurdle): (g': Absurdle)
    ensures g'.histories == map[]
    ensures !g'.core.isGameOver && g'.core.gameOverAt == None && g'.core.firstWinnerId == None
    ensures g'.core.wordList == g.core.wordList && g'.core.wordLength == g.core.wordLength
    ensures g'.core.maxRounds == g.core.maxRounds
  {
    Absurdle(g.core.(isGameOver := false, gameOverAt := None, firstWinnerId := None), map[])
  }

  // ---------------------------------------------------------------------
  // Properties of whole turns

  /** A ledger the game can have produced: candidates left, all from the
      word list in its order, and the game's round budget. */
  predicate LedgerOk(c: Core, h: AbsurdleLedger) {
    && |GetCandidateWords(h)| > 0
    && IsSubseq(GetCandidateWords(h), c.wordList)
    && h.maxRounds == c.maxRounds
  }

  predicate Inv(g: Absurdle) {
    ValidCore(g.core) && forall u | u in g.histories :: LedgerOk(g.core, g.histories[u])
  }

  lemma NewGameInv(config: Config)
    requires NewAbsurdleGame(config).Success?
    ensures Inv(NewAbsurdleGame(config).value)
  {
  }

  /** A player who has used up the budget is refused, and the only trace the
      call leaves is the ledger a first-time caller gets. */
  lemma NoRoundsLeftRejected(g: Absurdle, userId: string, word: string, now: Stamp, u: real)
    requires 0.0 <= u < 1.0
    requires Preamble(g.core, word).Success?
    requires !HasRoundsLeft(GetOrCreatePlayerHistory(g, userId))
    ensures Guess(g, userId, word, now, u).outcome == Failure(NoRoundsLeft)
    ensures Guess(g, userId, word, now, u).state.core == g.core
    ensures Guess(g, userId, word, now, u).state.histories == g.histories[userId := GetOrCreatePlayerHistory(g, userId)]
  {
  }

  /** An accepted guess appends exactly one record to the caller's ledger,
      whose candidates can only shrink; no other ledger changes, and the
      game ends exactly when the outcome is all Hit. */
  lemma AcceptedGuessEffect(g: Absurdle, userId: string, word: string, now: Stamp, u: real)
    requires 0.0 <= u < 1.0
    requires Guess(g, userId, word, now, u).outcome.Success?
    ensures var s := Guess(g, userId, word, now, u);
            var h := GetOrCreatePlayerHistory(g, userId);
            && userId in s.state.histories
            && s.state.histories[userId].guesses == h.guesses + [s.outcome.value]
            && HasRoundsLeft(h)
            && IsSubseq(GetCandidateWords(s.state.histories[userId]), GetCandidateWords(h))
            && (forall v | v in g.histories && v != userId :: v in s.state.histories && s.state.histories[v] == g.histories[v])
            && s.state.core.isGameOver == (g.core.isGameOver || s.outcome.value.isWon)
            && s.outcome.value.isWon == AllHit(s.outcome.value.results)
  {
    var h := GetOrCreatePlayerHistory(g, userId);
    var guess := Preamble(g.core, word).value;
    TurnAccepted(g.(histories := g.histories[userId := h]), userId, h, guess, now, u);
  }

  /** A turn keeps the invariant. */
  lemma TurnPreservesInv(g: Absurdle, userId: string, h: AbsurdleLedger, guess: string, now: Stamp, u: real)
    requires 0.0 <= u < 1.0
    requires Inv(g) && userId in g.histories && g.histories[userId] == h
    ensures Inv(Turn(g, userId, h, guess, now, u).state)
  {
    var s := Turn(g, userId, h, guess, now, u);
    if s.outcome.Success? {
      TurnAccepted(g, userId, h, guess, now, u);
      var h' := s.state.histories[userId];
      SubseqTrans(GetCandidateWords(h'), GetCandidateWords(h), g.core.wordList);
      assert LedgerOk(s.state.core, h');
      forall v | v in s.state.histories
        ensures LedgerOk(s.state.core, s.state.histories[v])
      {
        if v != userId {
          assert s.state.histories[v] == g.histories[v];
        }
      }
    }
  }

  /** A turn on a ledger with candidates never reports that none are left. */
  lemma TurnNeverExhausts(g: Absurdle, userId: string, h: AbsurdleLedger, guess: string, now: Stamp, u: real)
    requires 0.0 <= u < 1.0
    requires |GetCandidateWords(h)| > 0
    ensures Turn(g, userId, h, guess, now, u).outcome != Failure(NoCandidatesLeft)
  {
  }

  /** The invariant survives every call, so a game the constructor built
      never reports that no candidates are left. */
  lemma GuessPreservesInv(g: Absurdle, userId: string, word: string, now: Stamp, u: real)
    requires 0.0 <= u < 1.0
    requires Inv(g)
    ensures Inv(Guess(g, userId, word, now, u).state)
    ensures Guess(g, userId, word, now, u).outcome != Failure(NoCandidatesLeft)
  {
    if Preamble(g.core, word).Success? {
      var h := GetOrCreatePlayerHistory(g, userId);
      assert LedgerOk(g.core, h) by {
        if userId !in g.histories {
          SubseqRefl(g.core.wordList);
        }
      }
      TurnPreservesInv(g.(histories := g.histories[userId := h]), userId, h, Preamble(g.core, word).value, now, u);
      TurnNeverExhausts(g.(histories := g.histories[userId := h]), userId, h, Preamble(g.core, word).value, now, u);
    }
  }

  /** While some candidate still differs from the guess and more than one is
      left, the guess cannot win: every survivor has the fewest Hits, and
      the differing candidate has fewer than a full row. */
  lemma {:induction false} NoWinWhileAmbiguous(g: Absurdle, userId: string, word: string, now: Stamp, u: real, other: string)
    requires 0.0 <= u < 1.0
    requires Inv(g)
    requires |GetCandidateWords(GetOrCreatePlayerHistory(g, userId))| > 1
    requires other in GetCandidateWords(GetOrCreatePlayerHistory(g, userId)) && other != Upper(word)
    ensures Guess(g, userId, word, now, u).outcome.Success? ==> !Guess(g, userId, word, now, u).outcome.value.isWon
  {
    var s := Guess(g, userId, word, now, u);
    if s.outcome.Success? {
      var h := GetOrCreatePlayerHistory(g, userId);
      var guess := Preamble(g.core, word).value;
      var n := g.core.wordLength;
      var cands := GetCandidateWords(h);
      assert IsSubseq(cands, g.core.wordList) by {
        if userId !in g.histories {
          SubseqRefl(g.core.wordList);
        }
      }
      SubseqMembers(cands, g.core.wordList);
      var es := EvaluateAll(guess, cands, n);
      var rs := GetRemainingCandidates(guess, cands, n, u);
      RemainingCandidatesSpec(guess, cands, n, u);
      var i :| 0 <= i < |cands| && cands[i] == other;
      var e := es[i];
      assert e in es;
      AllHitIffSameWord(guess, other, n);
      AllHitIffAllCounted(e.result);
      assert rs[0] in rs;
      AllHitIffAllCounted(rs[0].result);
      assert s.outcome.value.results == rs[0].result;
    }
  }

  /** With one candidate left, the guess is scored against it, and naming it
      wins and ends the game with the caller as winner if nobody won before. */
  lemma SingleCandidateDecides(g: Absurdle, userId: string, word: string, now: Stamp, u: real)
    requires 0.0 <= u < 1.0
    requires Preamble(g.core, word).Success?
    requires HasRoundsLeft(GetOrCreatePlayerHistory(g, userId))
    requires GetCandidateWords(GetOrCreatePlayerHistory(g, userId)) == [Upper(word)]
    ensures var s := Guess(g, userId, word, now, u);
            && s.outcome.Success? && s.outcome.value.isWon
            && s.state.core.isGameOver && s.state.core.gameOverAt == Some(now)
            && s.state.core.firstWinnerId == KeepFirstWinner(g.core.firstWinnerId, userId)
  {
    var h := GetOrCreatePlayerHistory(g, userId);
    AllHitIffSameWord(Upper(word), Upper(word), g.core.wordLength);
  }

  /** After a restart a player starts again from the whole word list. */
  lemma RestartGivesFreshLedgers(g: Absurdle, userId: string)
    ensures GetOrCreatePlayerHistory(RestartGame(g), userId) == NewAbsurdleHistory(g.core.maxRounds, g.core.wordList)
    ensures Inv(g) ==> Inv(RestartGame(g))
  {
  }
}
