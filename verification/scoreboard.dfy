/** The scoreboard: one entry per player id, holding points (rounds won),
    rounds played and an integer accuracy percentage. The `Scoreboard` class keeps the
    entries in a `Map` keyed by player id and mutates them in place; here the
    board is the map's entries in insertion order, which is also the order
    `getTopScores` iterates them in. */
module Scoreboard {
  import opened Wrappers

  datatype PlayerScore = PlayerScore(id: string, name: string, score: nat, rounds: nat, accuracy: nat)

  datatype Board = Board(entries: seq<PlayerScore>)

  /** What `getOrInitiatePlayer` hands back: the board after the call and the
      player's entry in it. */
  datatype Fetched = Fetched(board: Board, player: PlayerScore)

  /** Accuracy as a whole percentage: 0 before any round, otherwise
      `100 * score / rounds` rounded half up. */
  function CalculateAccuracy(score: nat, rounds: nat): (a: nat)
    ensures rounds == 0 ==> a == 0
    ensures score == 0 ==> a == 0
  {
    if rounds == 0 then 0 else (200 * score + rounds) / (2 * rounds)
  }

  /** The stored accuracy is the one its counters give. */
  predicate Consistent(p: PlayerScore)
  {
    p.accuracy == CalculateAccuracy(p.score, p.rounds)
  }

  /** The invariant every operation keeps: ids are keys, so they are
      distinct, and every accuracy is up to date. */
  predicate Valid(b: Board)
  {
    && (forall i, j | 0 <= i < j < |b.entries| :: b.entries[i].id != b.entries[j].id)
    && (forall i | 0 <= i < |b.entries| :: Consistent(b.entries[i]))
  }

  /** Position of the entry stored under `id`, if any. */
  function IndexOf(entries: seq<PlayerScore>, id: string): (r: Option<nat>)
    ensures r.Some? ==> r.value < |entries| && entries[r.value].id == id
    ensures r.Some? ==> forall i | 0 <= i < r.value :: entries[i].id != id
    ensures r.None? <==> forall i | 0 <= i < |entries| :: entries[i].id != id
    decreases |entries|
  {
    if |entries| == 0 then None
    else if entries[0].id == id then Some(0)
    else match IndexOf(entries[1..], id)
      case None => None
      case Some(k) => Some(k + 1)
  }

  /** The entry stored under `id`, or `None` (`Map.get`'s `undefined`). */
  function GetScoreboardByPlayer(b: Board, id: string): (r: Option<PlayerScore>)
    ensures r.Some? ==> r.value in b.entries && r.value.id == id
    ensures r.None? <==> forall i | 0 <= i < |b.entries| :: b.entries[i].id != id
  {
    match IndexOf(b.entries, id)
    case None => None
    case Some(k) => Some(b.entries[k])
  }

  /** In a valid board every entry is found under its own id. */
  lemma LookupFindsEntry(b: Board, i: nat)
    requires Valid(b) && i < |b.entries|
    ensures GetScoreboardByPlayer(b, b.entries[i].id) == Some(b.entries[i])
  {
    var k := IndexOf(b.entries, b.entries[i].id).value;
    assert !(k < i) && !(i < k);
  }

  /** Lookups only look at ids, so boards whose ids agree position by
      position find every id at the same place. */
  lemma {:induction false} IndexOfSameIds(e1: seq<PlayerScore>, e2: seq<PlayerScore>, x: string)
    requires |e1| == |e2|
    requires forall i | 0 <= i < |e1| :: e1[i].id == e2[i].id
    ensures IndexOf(e1, x) == IndexOf(e2, x)
    decreases |e1|
  {
    if |e1| > 0 {
      IndexOfSameIds(e1[1..], e2[1..], x);
    }
  }

  /** Creates a zero entry under `name` the first time `id` is seen, at the
      end of the insertion order; otherwise changes nothing and returns the
      stored entry, whatever name is passed. */
  function GetOrInitiatePlayer(b: Board, id: string, name: string): (f: Fetched)
    ensures GetScoreboardByPlayer(f.board, id) == Some(f.player)
    ensures GetScoreboardByPlayer(b, id).Some? ==> f.board == b && f.player == GetScoreboardByPlayer(b, id).value
    ensures GetScoreboardByPlayer(b, id).None? ==>
      && f.board.entries == b.entries + [f.player]
      && f.player.name == name
      && f.player.score == 0 && f.player.rounds == 0 && f.player.accuracy == 0
  {
    match GetScoreboardByPlayer(b, id)
    case Some(p) => Fetched(b, p)
    case None =>
      var p := PlayerScore(id, name, 0, 0, 0);
      IndexOfNewEntry(b.entries, p);
      Fetched(Board(b.entries + [p]), p)
  }

  /** An entry appended under a new id is found at the end. */
  lemma IndexOfNewEntry(e: seq<PlayerScore>, p: PlayerScore)
    requires forall i | 0 <= i < |e| :: e[i].id != p.id
    ensures IndexOf(e + [p], p.id) == Some(|e|)
  {
    var e' := e + [p];
    assert e'[|e|].id == p.id;
    assert forall i | 0 <= i < |e| :: e'[i].id != p.id by {
      assert forall i | 0 <= i < |e| :: e'[i] == e[i];
    }
  }

  /** `getOrInitiatePlayer` keeps a board valid. */
  lemma GetOrInitiateKeepsValid(b: Board, id: string, name: string)
    requires Valid(b)
    ensures Valid(GetOrInitiatePlayer(b, id, name).board)
  {
  }

  /** A second call for the same id, under any name, returns the entry the
      first call left and leaves the board alone, so the first name sticks. */
  lemma FirstNameSticks(b: Board, id: string, first: string, later: string)
    ensures var f1 := GetOrInitiatePlayer(b, id, first);
      var f2 := GetOrInitiatePlayer(f1.board, id, later);
      && f2 == f1
      && (GetScoreboardByPlayer(b, id).None? ==> f2.player.name == first)
  {
  }

  /** Replaces the entry stored under `p.id` with `p`, in place. */
  function Store(b: Board, p: PlayerScore): (r: Board)
    requires IndexOf(b.entries, p.id).Some?
    ensures |r.entries| == |b.entries|
    ensures forall i | 0 <= i < |b.entries| :: r.entries[i].id == b.entries[i].id
  {
    Board(b.entries[IndexOf(b.entries, p.id).value := p])
  }

  /** After a store, `p` is found under its id and every other id finds the
      entry it found before. */
  lemma StoreEffect(b: Board, p: PlayerScore, x: string)
    requires IndexOf(b.entries, p.id).Some?
    ensures GetScoreboardByPlayer(Store(b, p), x) ==
      (if x == p.id then Some(p) else GetScoreboardByPlayer(b, x))
  {
    IndexOfSameIds(Store(b, p).entries, b.entries, x);
  }

  /** Storing a consistent entry under an existing id keeps a board valid. */
  lemma StoreKeepsValid(b: Board, p: PlayerScore)
    requires Valid(b) && Consistent(p) && IndexOf(b.entries, p.id).Some?
    ensures Valid(Store(b, p))
  {
  }

  /** The player's entry after one more point: `score` up by one and the
      accuracy recomputed; id, name and rounds unchanged. */
  function Scored(p: PlayerScore): PlayerScore
  {
    p.(score := p.score + 1, accuracy := CalculateAccuracy(p.score + 1, p.rounds))
  }

  /** The player's entry after one more round played. */
  function Played(p: PlayerScore): PlayerScore
  {
    p.(rounds := p.rounds + 1, accuracy := CalculateAccuracy(p.score, p.rounds + 1))
  }

  /** `addScore`: the player found or created under `id` gains a point. */
  function AddScore(b: Board, id: string, name: string): (r: Board)
    ensures var p := GetOrInitiatePlayer(b, id, name).player;
      var q := GetScoreboardByPlayer(r, id);
      && q.Some?
      && q.value.id == id && q.value.name == p.name
      && q.value.score == p.score + 1 && q.value.rounds == p.rounds
      && Consistent(q.value)
  {
    var f := GetOrInitiatePlayer(b, id, name);
    FetchThenStore(b, id, name, Scored(f.player), id);
    Store(f.board, Scored(f.player))
  }

  /** `addRound`: the player found or created under `id` plays one more round. */
  function AddRound(b: Board, id: string, name: string): (r: Board)
    ensures var p := GetOrInitiatePlayer(b, id, name).player;
      var q := GetScoreboardByPlayer(r, id);
      && q.Some?
      && q.value.id == id && q.value.name == p.name
      && q.value.score == p.score && q.value.rounds == p.rounds + 1
      && Consistent(q.value)
  {
    var f := GetOrInitiatePlayer(b, id, name);
    FetchThenStore(b, id, name, Played(f.player), id);
    Store(f.board, Played(f.player))
  }

  /** Fetching `id` and then storing `q` under it: `q` is found under `id`,
      and every other id finds what it found before the fetch. */
  lemma FetchThenStore(b: Board, id: string, name: string, q: PlayerScore, x: string)
    requires q.id == id
    ensures IndexOf(GetOrInitiatePlayer(b, id, name).board.entries, id).Some?
    ensures GetScoreboardByPlayer(Store(GetOrInitiatePlayer(b, id, name).board, q), x) ==
      (if x == id then Some(q) else GetScoreboardByPlayer(b, x))
  {
    var f := GetOrInitiatePlayer(b, id, name);
    StoreEffect(f.board, q, x);
    if x != id && GetScoreboardByPlayer(b, id).None? {
      IndexOfAppend(b.entries, f.player, x);
    }
  }

  /** Fetching and then storing a consistent entry keeps a board valid. */
  lemma FetchThenStoreKeepsValid(b: Board, id: string, name: string, q: PlayerScore)
    requires Valid(b) && q.id == id && Consistent(q)
    ensures IndexOf(GetOrInitiatePlayer(b, id, name).board.entries, id).Some?
    ensures Valid(Store(GetOrInitiatePlayer(b, id, name).board, q))
  {
    FetchThenStore(b, id, name, q, id);
    GetOrInitiateKeepsValid(b, id, name);
    StoreKeepsValid(GetOrInitiatePlayer(b, id, name).board, q);
  }

  /** `addScore`: the player's points go up by one and the accuracy follows;
      the name, the rounds and every other player's entry stay; a new
      player is created first. */
  lemma AddScoreEffect(b: Board, id: string, name: string, x: string)
    ensures var p := GetOrInitiatePlayer(b, id, name).player;
      var q := GetScoreboardByPlayer(AddScore(b, id, name), id);
      && q.Some?
      && q.value.id == id && q.value.name == p.name
      && q.value.score == p.score + 1 && q.value.rounds == p.rounds
      && Consistent(q.value)
    ensures x != id ==> GetScoreboardByPlayer(AddScore(b, id, name), x) == GetScoreboardByPlayer(b, x)
  {
    var p := GetOrInitiatePlayer(b, id, name).player;
    FetchThenStore(b, id, name, Scored(p), id);
    FetchThenStore(b, id, name, Scored(p), x);
  }

  /** `addScore` keeps a board valid. */
  lemma AddScoreKeepsValid(b: Board, id: string, name: string)
    requires Valid(b)
    ensures Valid(AddScore(b, id, name))
  {
    FetchThenStoreKeepsValid(b, id, name, Scored(GetOrInitiatePlayer(b, id, name).player));
  }

  /** `addRound`: the player's rounds go up by one and the accuracy follows;
      the name, the points and every other player's entry stay; a new player
      is created first. */
  lemma AddRoundEffect(b: Board, id: string, name: string, x: string)
    ensures var p := GetOrInitiatePlayer(b, id, name).player;
      var q := GetScoreboardByPlayer(AddRound(b, id, name), id);
      && q.Some?
      && q.value.id == id && q.value.name == p.name
      && q.value.score == p.score && q.value.rounds == p.rounds + 1
      && Consistent(q.value)
    ensures x != id ==> GetScoreboardByPlayer(AddRound(b, id, name), x) == GetScoreboardByPlayer(b, x)
  {
    var p := GetOrInitiatePlayer(b, id, name).player;
    FetchThenStore(b, id, name, Played(p), id);
    FetchThenStore(b, id, name, Played(p), x);
  }

  /** `addRound` keeps a board valid. */
  lemma AddRoundKeepsValid(b: Board, id: string, name: string)
    requires Valid(b)
    ensures Valid(AddRound(b, id, name))
  {
    FetchThenStoreKeepsValid(b, id, name, Played(GetOrInitiatePlayer(b, id, name).player));
  }

  /** Appending an entry under a new id changes no lookup of another id. */
  lemma IndexOfAppend(e: seq<PlayerScore>, p: PlayerScore, x: string)
    requires x != p.id
    ensures IndexOf(e + [p], x) == IndexOf(e, x)
  {
    assert (e + [p])[..|e|] == e;
    match IndexOf(e, x)
    case Some(k) =>
      assert (e + [p])[k] == e[k];
    case None =>
      assert forall i | 0 <= i < |e + [p]| :: (e + [p])[i].id != x by {
        forall i | 0 <= i < |e + [p]|
          ensures (e + [p])[i].id != x
        {
          if i < |e| {
            assert (e + [p])[i] == e[i];
          }
        }
      }
  }

  /** `reset`: every player is forgotten. */
  function Reset(): (r: Board)
    ensures forall id :: GetScoreboardByPlayer(r, id).None?
    ensures Valid(r)
  {
    Board([])
  }

  /** The accuracy is `100 * score / rounds` rounded to the nearest whole
      number, halves going up: it lies within one half below and strictly
      less than one half above the exact percentage. */
  lemma AccuracyRoundsHalfUp(score: nat, rounds: nat)
    requires rounds > 0
    ensures var a := CalculateAccuracy(score, rounds);
      rounds * (2 * a) <= 200 * score + rounds < rounds * (2 * a + 2)
  {
    var a := CalculateAccuracy(score, rounds);
    var n := 200 * score + rounds;
    var d := 2 * rounds;
    assert n == d * a + n % d && 0 <= n % d < d;
    assert rounds * (2 * a) == d * a;
    assert rounds * (2 * a + 2) == d * a + d;
  }

  /** ... and it is the only whole number that does. */
  lemma AccuracyIsNearest(score: nat, rounds: nat, a: nat)
    requires rounds > 0
    ensures CalculateAccuracy(score, rounds) == a <==>
      rounds * (2 * a) <= 200 * score + rounds < rounds * (2 * a + 2)
  {
    var c := CalculateAccuracy(score, rounds);
    AccuracyRoundsHalfUp(score, rounds);
    if rounds * (2 * a) <= 200 * score + rounds < rounds * (2 * a + 2) {
      if a < c {
        MulMonotone(rounds, 2 * a + 2, 2 * c);
      } else if c < a {
        MulMonotone(rounds, 2 * c + 2, 2 * a);
      }
    }
  }

  lemma MulMonotone(k: nat, x: nat, y: nat)
    requires x <= y
    ensures k * x <= k * y
  {
    assert k * y == k * x + k * (y - x);
  }

  /** With no more points than rounds the accuracy is a percentage: at most
      100, and exactly 100 when every round was won. */
  lemma AccuracyAtMostHundred(score: nat, rounds: nat)
    requires score <= rounds
    ensures CalculateAccuracy(score, rounds) <= 100
    ensures 0 < rounds && score == rounds ==> CalculateAccuracy(score, rounds) == 100
  {
    if rounds > 0 {
      var a := CalculateAccuracy(score, rounds);
      AccuracyRoundsHalfUp(score, rounds);
      MulMonotone(rounds, score, rounds);
      if a > 100 {
        MulMonotone(rounds, 202, 2 * a);
      }
      if score == rounds {
        AccuracyIsNearest(score, rounds, 100);
      }
    }
  }
}
