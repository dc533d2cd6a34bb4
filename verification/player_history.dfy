/** `AbstractPlayerHistory`: one player's append-only list of guess records
    for the current game, with the round counts and the win derived from it.
    `extra` holds what a subclass adds (nothing for the standard game, the
    candidate list for Absurdle); the base operations never touch it. */
module PlayerHistory {
  import opened Wrappers
  import opened Outcomes

  datatype History<X> = History(maxRounds: int, guesses: seq<GuessResult>, extra: X)

  function NewHistory<X>(maxRounds: int, extra: X): (h: History<X>)
    ensures GetGuessCount(h) == 0 && GetRemainingRounds(h) == maxRounds && h.extra == extra
  {
    History(maxRounds, [], extra)
  }

  /** `guesses.push(result)`. */
  function AddGuess<X>(h: History<X>, r: GuessResult): (h': History<X>)
    ensures GetGuessCount(h') == GetGuessCount(h) + 1
    ensures GetLastGuess(h') == Some(r)
    ensures forall i | 0 <= i < |h.guesses| :: h'.guesses[i] == h.guesses[i]
    ensures h'.maxRounds == h.maxRounds && h'.extra == h.extra
  {
    h.(guesses := h.guesses + [r])
  }

  /** `guesses[guesses.length - 1]`, `undefined` when there is none. */
  function GetLastGuess<X>(h: History<X>): Option<GuessResult> {
    if |h.guesses| == 0 then None else Some(h.guesses[|h.guesses| - 1])
  }

  function GetGuessCount<X>(h: History<X>): nat {
    |h.guesses|
  }

  predicate HasGuesses<X>(h: History<X>) {
    |h.guesses| > 0
  }

  /** `guesses = []`; the round budget and any subclass state stay. */
  function Reset<X>(h: History<X>): (h': History<X>)
    ensures GetGuessCount(h') == 0 && h'.maxRounds == h.maxRounds && h'.extra == h.extra
  {
    h.(guesses := [])
  }

  /** Some record's outcomes are all Hit (its `isWon` flag is not consulted). */
  predicate IsWon<X>(h: History<X>) {
    exists i | 0 <= i < |h.guesses| :: AllHit(h.guesses[i].results)
  }

  function GetCurrentRound<X>(h: History<X>): int {
    |h.guesses| + 1
  }

  /** No floor at zero: appending past the budget makes it negative. */
  function GetRemainingRounds<X>(h: History<X>): int {
    h.maxRounds - GetGuessCount(h)
  }

  predicate HasRoundsLeft<X>(h: History<X>) {
    GetRemainingRounds(h) > 0
  }

  /** The derived counts agree: the current round is one past the count, the
      remaining rounds are the budget less the count, and a player has
      rounds left exactly while the count is below the budget. */
  lemma CountsAgree<X>(h: History<X>)
    ensures GetCurrentRound(h) == GetGuessCount(h) + 1
    ensures GetRemainingRounds(h) + GetGuessCount(h) == h.maxRounds
    ensures HasRoundsLeft(h) <==> GetGuessCount(h) < h.maxRounds
    ensures HasGuesses(h) <==> GetLastGuess(h).Some?
  {
  }

  /** Appending a record wins the ledger exactly when the ledger was already
      won or the new record is all Hit, and spends one round. */
  lemma AddGuessEffect<X>(h: History<X>, r: GuessResult)
    ensures IsWon(AddGuess(h, r)) <==> IsWon(h) || AllHit(r.results)
    ensures GetRemainingRounds(AddGuess(h, r)) == GetRemainingRounds(h) - 1
    ensures GetCurrentRound(AddGuess(h, r)) == GetCurrentRound(h) + 1
  {
    var h' := AddGuess(h, r);
    if AllHit(r.results) {
      assert h'.guesses[|h.guesses|] == r;
    }
    if IsWon(h) {
      var i :| 0 <= i < |h.guesses| && AllHit(h.guesses[i].results);
      assert h'.guesses[i] == h.guesses[i];
    }
  }

  /** After a reset the ledger is a fresh one: no guesses, not won, round
      one, and the whole budget left. */
  lemma ResetRestoresBudget<X>(h: History<X>)
    ensures GetRemainingRounds(Reset(h)) == h.maxRounds
    ensures !IsWon(Reset(h)) && !HasGuesses(Reset(h)) && GetLastGuess(Reset(h)) == None
    ensures GetCurrentRound(Reset(h)) == 1
  {
  }

  /** `rs` appended one after another. */
  function AddGuesses<X>(h: History<X>, rs: seq<GuessResult>): History<X>
    decreases |rs|
  {
    if |rs| == 0 then h else AddGuesses(AddGuess(h, rs[0]), rs[1..])
  }

  /** Appending records keeps the earlier ones and puts the new ones after
      them in order; once `maxRounds` records are in, no rounds are left. */
  lemma {:induction false} AddGuessesAppends<X>(h: History<X>, rs: seq<GuessResult>)
    ensures AddGuesses(h, rs).guesses == h.guesses + rs
    ensures GetGuessCount(h) + |rs| >= h.maxRounds ==> !HasRoundsLeft(AddGuesses(h, rs))
    decreases |rs|
  {
    if |rs| > 0 {
      AddGuessesAppends(AddGuess(h, rs[0]), rs[1..]);
      assert (h.guesses + [rs[0]]) + rs[1..] == h.guesses + rs;
    }
  }
}
