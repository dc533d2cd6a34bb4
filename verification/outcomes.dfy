/** The shared result types of a guess: the per-letter outcome, the record a
    ledger stores, and the errors a guess can raise. */
module Outcomes {
  import opened Seqs

  /** `LetterResult`. */
  datatype Outcome = Hit | Present | Miss

  /** `results.every((r) => r === LetterResult.Hit)`; true of an empty sequence. */
  predicate AllHit(rs: seq<Outcome>) {
    forall i | 0 <= i < |rs| :: rs[i] == Hit
  }

  /** The record a successful guess produces and a ledger keeps. */
  datatype GuessResult = GuessResult(guess: string, results: seq<Outcome>, isWon: bool)

  /** The errors `guess` throws, one variant per message. */
  datatype GuessError =
    | InvalidFormat      // "Guess must be exactly N English letters."
    | NotInWordList      // "Guess must be in the allowed word list."
    | GameAlreadyOver    // "Game is already over."
    | NoRoundsLeft       // "Player has no more rounds left."
    | NoCandidatesLeft   // "No candidates left after guess."

  /** Every outcome is a Hit exactly when the Hits number as many as the outcomes. */
  lemma {:induction false} AllHitIffAllCounted(rs: seq<Outcome>)
    ensures AllHit(rs) <==> Occ(rs, Hit) == |rs|
  {
    if |rs| > 0 {
      AllHitIffAllCounted(rs[1..]);
      assert AllHit(rs) <==> rs[0] == Hit && AllHit(rs[1..]) by {
        if rs[0] == Hit && AllHit(rs[1..]) {
          forall i | 0 <= i < |rs| ensures rs[i] == Hit {
            if i > 0 { assert rs[i] == rs[1..][i - 1]; }
          }
        }
      }
    }
  }
}
