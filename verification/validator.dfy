/** `WordleValidator`: the three checks every `guess` runs first. Each
    returns the error it would throw, or `None` when it passes. */
module Validator {
  import opened Wrappers
  import opened Letters
  import opened Outcomes

  /** The regular expression `^[A-Z]{n}$`: exactly `n` characters, each a
      capital letter, anchored at both ends. */
  function MatchesCapitals(s: string, n: nat): (m: bool)
    ensures m <==> |s| == n && forall i | 0 <= i < |s| :: IsUpperLetter(s[i])
  {
    if n == 0 then |s| == 0
    else |s| > 0 && IsUpperLetter(s[0]) && MatchesCapitals(s[1..], n - 1)
  }

  function ValidateGuessFormat(guess: string, wordLength: nat): (e: Option<GuessError>)
    ensures e == None <==> |guess| == wordLength && forall i | 0 <= i < |guess| :: IsUpperLetter(guess[i])
    ensures e != None ==> e == Some(InvalidFormat)
  {
    if MatchesCapitals(guess, wordLength) then None else Some(InvalidFormat)
  }

  /** `wordList.includes(guess)`: a scan from the front. */
  function Includes(wordList: seq<string>, guess: string): (b: bool)
    ensures b <==> guess in wordList
  {
    if |wordList| == 0 then false
    else wordList[0] == guess || Includes(wordList[1..], guess)
  }

  function ValidateGuessInWordList(guess: string, wordList: seq<string>): (e: Option<GuessError>)
    ensures e == None <==> guess in wordList
    ensures e != None ==> e == Some(NotInWordList)
  {
    if Includes(wordList, guess) then None else Some(NotInWordList)
  }

  function ValidateGameNotOver(isGameOver: bool): (e: Option<GuessError>)
    ensures e == None <==> !isGameOver
    ensures e != None ==> e == Some(GameAlreadyOver)
  {
    if isGameOver then Some(GameAlreadyOver) else None
  }

  /** The format check rejects a wrong length, lower-case letters and digits. */
  lemma FormatExamples()
    ensures ValidateGuessFormat("APPLE", 5) == None
    ensures ValidateGuessFormat("APP", 5) == Some(InvalidFormat)
    ensures ValidateGuessFormat("apple", 5) == Some(InvalidFormat)
    ensures ValidateGuessFormat("APPL3", 5) == Some(InvalidFormat)
  {
    assert !IsUpperLetter("apple"[0]);
    assert !IsUpperLetter("APPL3"[4]);
  }
}
