/** `AbstractWordleGame` in `server/src/game/wordle/`: the state every game
    mode shares, its construction from a configuration, the game-over
    bookkeeping, and the steps all three `guess` implementations run in
    the same order. */
module AbstractGame {
  import opened Wrappers
  import opened Letters
  import opened Outcomes
  import opened Validator
  import opened PlayerHistory

  /** An opaque stand-in for `new Date()`. */
  type Stamp = nat

  /** `WordleConfig`. */
  datatype Config = Config(maxRounds: int, wordList: seq<string>)

  /** The two errors the constructor throws. */
  datatype WordListError = EmptyWordList | MixedWordLengths

  /** The fields of a game other than its ledgers (and, for the standard
      modes, its answer). */
  datatype Core = Core(
    wordList: seq<string>,
    wordLength: nat,
    maxRounds: int,
    isGameOver: bool,
    gameOverAt: Option<Stamp>,
    firstWinnerId: Option<string>)

  /** What the constructor guarantees of every game it produces. */
  predicate ValidCore(c: Core) {
    |c.wordList| > 0 && forall w | w in c.wordList :: |w| == c.wordLength
  }

  /** `wordList.every((w) => w.length === n)`. */
  function AllOfLength(ws: seq<string>, n: nat): (b: bool)
    ensures b <==> forall w | w in ws :: |w| == n
  {
    if |ws| == 0 then true else |ws[0]| == n && AllOfLength(ws[1..], n)
  }

  /** `validateWordList`: the error it throws, if any. */
  function ValidateWordList(ws: seq<string>): (e: Option<WordListError>)
    ensures e == Some(EmptyWordList) <==> |ws| == 0
    ensures e == None <==> |ws| > 0 && forall w | w in ws :: |w| == |ws[0]|
  {
    if |ws| == 0 then Some(EmptyWordList)
    else if AllOfLength(ws, |ws[0]|) then None
    else Some(MixedWordLengths)
  }

  /** The constructor: upper-case the list, validate it, take the first
      word's length, start with no winner and the game not over. */
  function NewCore(config: Config): (r: Result<Core, WordListError>)
    ensures r == Failure(EmptyWordList) <==> |config.wordList| == 0
    ensures r == Failure(MixedWordLengths) <==>
      |config.wordList| > 0 && exists w | w in config.wordList :: |w| != |config.wordList[0]|
    ensures r.Success? ==>
      && ValidCore(r.value)
      && r.value.wordList == UpperAll(config.wordList)
      && r.value.wordLength == |config.wordList[0]|
      && r.value.maxRounds == config.maxRounds
      && !r.value.isGameOver && r.value.gameOverAt == None && r.value.firstWinnerId == None
  {
    var ws := UpperAll(config.wordList);
    assert forall w | w in config.wordList :: exists i | 0 <= i < |ws| :: ws[i] == Upper(w);
    match ValidateWordList(ws)
    case Some(e) => Failure(e)
    case None => Success(Core(ws, |ws[0]|, config.maxRounds, false, None, None))
  }

  /** `handleGameOver`: the game is over from `now` on; nothing else changes. */
  function HandleGameOver(c: Core, now: Stamp): (c': Core)
    ensures c'.isGameOver && c'.gameOverAt == Some(now)
    ensures c'.firstWinnerId == c.firstWinnerId && c'.wordList == c.wordList
    ensures c'.wordLength == c.wordLength && c'.maxRounds == c.maxRounds
  {
    c.(isGameOver := true, gameOverAt := Some(now))
  }

  function SetIsGameOver(c: Core, value: bool): (c': Core)
    ensures c'.isGameOver == value
    ensures c'.gameOverAt == c.gameOverAt && c'.firstWinnerId == c.firstWinnerId && c'.wordList == c.wordList
  {
    c.(isGameOver := value)
  }

  function SetGameOverAt(c: Core, date: Option<Stamp>): (c': Core)
    ensures c'.gameOverAt == date
    ensures c'.isGameOver == c.isGameOver && c'.firstWinnerId == c.firstWinnerId && c'.wordList == c.wordList
  {
    c.(gameOverAt := date)
  }

  function SetFirstWinnerId(c: Core, userId: Option<string>): (c': Core)
    ensures c'.firstWinnerId == userId
    ensures c'.isGameOver == c.isGameOver && c'.gameOverAt == c.gameOverAt && c'.wordList == c.wordList
  {
    c.(firstWinnerId := userId)
  }

  /** 1 for a player with no ledger, otherwise one past their guess count. */
  function GetPlayerCurrentRound<X>(hs: map<string, History<X>>, userId: string): (r: int)
    ensures userId !in hs ==> r == 1
    ensures userId in hs ==> r == GetGuessCount(hs[userId]) + 1
  {
    if userId in hs then GetCurrentRound(hs[userId]) else 1
  }

  /** `resetPlayerHistories`: every ledger emptied, every player kept. */
  function ResetPlayerHistories<X>(hs: map<string, History<X>>): (hs': map<string, History<X>>)
    ensures hs'.Keys == hs.Keys
    ensures forall u | u in hs' ::
              GetGuessCount(hs'[u]) == 0 && hs'[u].maxRounds == hs[u].maxRounds && hs'[u].extra == hs[u].extra
  {
    map u | u in hs :: Reset(hs[u])
  }

  /** `Math.floor(Math.random() * len)` for a draw `u` in [0, 1). */
  function RandomIndex(u: real, len: nat): (i: nat)
    requires 0.0 <= u < 1.0
    ensures len > 0 ==> i < len
  {
    var x := u * len as real;
    assert 0.0 <= x;
    assert len > 0 ==> x < len as real by {
      if len > 0 {
        assert (1.0 - u) * len as real > 0.0;
      }
    }
    x.Floor
  }

  /** `pickRandomAnswer`: the word list at a drawn index. */
  function PickRandomAnswer(wordList: seq<string>, u: real): (w: string)
    requires |wordList| > 0 && 0.0 <= u < 1.0
    ensures w in wordList
  {
    wordList[RandomIndex(u, |wordList|)]
  }

  /** The validation every `guess` runs first, in its order: the upper-cased
      guess must have the game's length in capital letters, be in the word
      list, and the game must not be over. */
  function Preamble(c: Core, word: string): (r: Result<string, GuessError>)
    ensures r.Success? <==>
      && |word| == c.wordLength
      && (forall i | 0 <= i < |word| :: IsUpperLetter(Upper(word)[i]))
      && Upper(word) in c.wordList
      && !c.isGameOver
    ensures r.Success? ==> r.value == Upper(word)
    ensures r == Failure(InvalidFormat) <==> ValidateGuessFormat(Upper(word), c.wordLength) != None
    ensures r == Failure(NotInWordList) <==>
      ValidateGuessFormat(Upper(word), c.wordLength) == None && Upper(word) !in c.wordList
    ensures r == Failure(GameAlreadyOver) <==>
      ValidateGuessFormat(Upper(word), c.wordLength) == None && Upper(word) in c.wordList && c.isGameOver
  {
    var guess := Upper(word);
    match ValidateGuessFormat(guess, c.wordLength)
    case Some(e) => Failure(e)
    case None =>
      match ValidateGuessInWordList(guess, c.wordList)
      case Some(e) => Failure(e)
      case None =>
        match ValidateGameNotOver(c.isGameOver)
        case Some(e) => Failure(e)
        case None => Success(guess)
  }

  /** A word in capitals that the list holds passes all three checks
      unchanged while the game is open. */
  lemma PreambleAcceptsListedCapitals(c: Core, word: string)
    requires ValidCore(c) && word in c.wordList && !c.isGameOver
    requires forall i | 0 <= i < |word| :: IsUpperLetter(word[i])
    ensures Preamble(c, word) == Success(word)
  {
    UpperOfCapitals(word);
  }

  /** `this.firstWinnerId || userId`: an earlier winner stays, unless the
      stored id is the empty string, which JavaScript reads as false. */
  function KeepFirstWinner(prev: Option<string>, userId: string): (w: Option<string>)
    ensures prev.Some? && prev.value != "" ==> w == prev
    ensures prev == None || prev == Some("") ==> w == Some(userId)
  {
    if prev.Some? && prev.value != "" then prev else Some(userId)
  }

  /** What a `guess` call leaves behind: the state after it, whether it
      returned or threw (a throw can follow a mutation), and what it
      returned or threw. */
  datatype Step<S> = Step(state: S, outcome: Result<GuessResult, GuessError>)

  /** The shared tail of every accepted guess. */
  datatype Recorded<X> = Recorded(core: Core, histories: map<string, History<X>>, result: GuessResult)

  /** The record built from the outcomes, appended to the player's ledger;
      on an all-Hit outcome the first winner is kept or set and the game is
      over. */
  function RecordGuess<X>(c: Core, hs: map<string, History<X>>, userId: string, h: History<X>,
                          guess: string, results: seq<Outcome>, now: Stamp): (r: Recorded<X>)
    ensures r.result == GuessResult(guess, results, AllHit(results))
    ensures r.histories == hs[userId := AddGuess(h, r.result)]
    ensures r.core.wordList == c.wordList && r.core.wordLength == c.wordLength && r.core.maxRounds == c.maxRounds
    ensures r.result.isWon ==>
      r.core.isGameOver && r.core.gameOverAt == Some(now) && r.core.firstWinnerId == KeepFirstWinner(c.firstWinnerId, userId)
    ensures !r.result.isWon ==> r.core == c
  {
    var result := GuessResult(guess, results, AllHit(results));
    var hs' := hs[userId := AddGuess(h, result)];
    if result.isWon then
      Recorded(HandleGameOver(c.(firstWinnerId := KeepFirstWinner(c.firstWinnerId, userId)), now), hs', result)
    else
      Recorded(c, hs', result)
  }
}
