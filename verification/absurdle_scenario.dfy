/** The losing Absurdle game of `absurdleGame.spec.ts`, worked through the
    model: eight five-letter words, a budget of six guesses, and the
    candidate list and outcome after each guess. No guess in it meets a tie
    on both tallies, so it plays out the same whatever the draw. */
module AbsurdleScenario {
  import opened Wrappers
  import opened Seqs
  import opened Letters
  import opened Outcomes
  import opened Scorer
  import opened PlayerHistory
  import opened AbsurdleHistory
  import opened AbstractGame
  import opened Candidates
  import opened AbsurdleGame

  const Words: seq<string> := ["HELLO", "WORLD", "QUITE", "FANCY", "FRESH", "PANIC", "CRAZY", "BUGGY"]
  const Misses: seq<Outcome> := [Miss, Miss, Miss, Miss, Miss]
  const User: string := "user1"

  // ---------------------------------------------------------------------
  // Each guess against each candidate it meets

  function Ind(b: bool): nat {
    if b then 1 else 0
  }

  /** How often `x` occurs in a five-letter outcome, position by position. */
  lemma OccOfFive(r: seq<Outcome>, x: Outcome)
    requires |r| == 5
    ensures Occ(r, x) == Ind(r[0] == x) + Ind(r[1] == x) + Ind(r[2] == x) + Ind(r[3] == x) + Ind(r[4] == x)
  {
    assert Occ(r[4..], x) == Ind(r[4] == x) by {
      assert r[4..][1..] == [];
    }
    assert Occ(r[3..], x) == Ind(r[3] == x) + Occ(r[4..], x) by {
      assert r[3..][1..] == r[4..];
    }
    assert Occ(r[2..], x) == Ind(r[2] == x) + Occ(r[3..], x) by {
      assert r[2..][1..] == r[3..];
    }
    assert Occ(r[1..], x) == Ind(r[1] == x) + Occ(r[2..], x) by {
      assert r[1..][1..] == r[2..];
    }
  }

  /** The tallies of a five-letter outcome. */
  lemma TallyOfFive(r: seq<Outcome>)
    requires |r| == 5
    ensures Occ(r, Hit) == Ind(r[0] == Hit) + Ind(r[1] == Hit) + Ind(r[2] == Hit) + Ind(r[3] == Hit) + Ind(r[4] == Hit)
    ensures Occ(r, Present) == Ind(r[0] == Present) + Ind(r[1] == Present) + Ind(r[2] == Present) + Ind(r[3] == Present) + Ind(r[4] == Present)
  {
    OccOfFive(r, Hit);
    OccOfFive(r, Present);
  }

  /** Non-Hit copies of `x` among the first `i` guess letters. */
  function Before<T(==)>(g: seq<T>, a: seq<T>, i: nat, x: T): nat
    requires |g| == |a| && i <= |g|
  {
    if i == 0 then 0 else Before(g, a, i - 1, x) + Ind(g[i - 1] != a[i - 1] && g[i - 1] == x)
  }

  /** Unmatched copies of `x` among the first `i` answer letters. */
  function Unpaired<T(==)>(g: seq<T>, a: seq<T>, i: nat, x: T): nat
    requires |g| == |a| && i <= |g|
  {
    if i == 0 then 0 else Unpaired(g, a, i - 1, x) + Ind(g[i - 1] != a[i - 1] && a[i - 1] == x)
  }

  lemma {:induction false} GuessLeftIsBefore<T>(g: seq<T>, a: seq<T>, i: nat, x: T)
    requires |g| == |a| && i <= |g|
    ensures GuessLeft(g[..i], a[..i], x) == Before(g, a, i, x)
  {
    if i > 0 {
      GuessLeftIsBefore(g, a, i - 1, x);
      GuessLeftSnoc(g[..i], a[..i], x);
      assert g[..i][..i - 1] == g[..i - 1];
      assert a[..i][..i - 1] == a[..i - 1];
    }
  }

  lemma {:induction false} AnsLeftIsUnpaired<T>(g: seq<T>, a: seq<T>, i: nat, x: T)
    requires |g| == |a| && i <= |g|
    ensures AnsLeft(g[..i], a[..i], x) == Unpaired(g, a, i, x)
  {
    if i > 0 {
      AnsLeftIsUnpaired(g, a, i - 1, x);
      AnsLeftSnoc(g[..i], a[..i], x);
      assert g[..i][..i - 1] == g[..i - 1];
      assert a[..i][..i - 1] == a[..i - 1];
    }
  }

  /** The reference rule at one position, with both counts spelled out. */
  function Counted<T(==)>(g: seq<T>, a: seq<T>, i: nat): Outcome
    requires |g| == |a| && i < |g|
  {
    if g[i] == a[i] then Hit
    else if Before(g, a, i, g[i]) < Unpaired(g, a, |g|, g[i]) then Present
    else Miss
  }

  lemma ReferenceIsCounted<T>(g: seq<T>, a: seq<T>, i: nat)
    requires |g| == |a| && i < |g|
    ensures ReferenceAt(g, a, i) == Counted(g, a, i)
  {
    GuessLeftIsBefore(g, a, i, g[i]);
    AnsLeftIsUnpaired(g, a, |g|, g[i]);
    assert g[..|g|] == g && a[..|a|] == a;
  }

  /** A five-letter score from the counted rule at each position. */
  lemma ScoreOfFive<T(!new)>(g: seq<T>, a: seq<T>, o0: Outcome, o1: Outcome, o2: Outcome, o3: Outcome, o4: Outcome)
    requires |g| == |a| == 5
    requires Counted(g, a, 0) == o0 && Counted(g, a, 1) == o1 && Counted(g, a, 2) == o2
    requires Counted(g, a, 3) == o3 && Counted(g, a, 4) == o4
    ensures Score(g, a) == [o0, o1, o2, o3, o4]
  {
    ScoreMatchesReference(g, a);
    ReferenceIsCounted(g, a, 0);
    ReferenceIsCounted(g, a, 1);
    ReferenceIsCounted(g, a, 2);
    ReferenceIsCounted(g, a, 3);
    ReferenceIsCounted(g, a, 4);
  }

  lemma ScoreHelloHello()
    ensures Score("HELLO", "HELLO") == [Hit, Hit, Hit, Hit, Hit]
  {
    ScoreOfFive("HELLO", "HELLO", Hit, Hit, Hit, Hit, Hit);
  }

  lemma HelloOnHello()
    ensures Evaluate("HELLO", "HELLO", 5) == CandidateResult("HELLO", [Hit, Hit, Hit, Hit, Hit], 5, 0)
  {
    ScoreHelloHello();
    CalculateResultOnWords("HELLO", "HELLO", 5);
    TallyOfFive([Hit, Hit, Hit, Hit, Hit]);
  }

  lemma ScoreHelloWorld()
    ensures Score("HELLO", "WORLD") == [Miss, Miss, Miss, Hit, Present]
  {
    ScoreOfFive("HELLO", "WORLD", Miss, Miss, Miss, Hit, Present);
  }

  lemma HelloOnWorld()
    ensures Evaluate("HELLO", "WORLD", 5) == CandidateResult("WORLD", [Miss, Miss, Miss, Hit, Present], 1, 1)
  {
    ScoreHelloWorld();
    CalculateResultOnWords("HELLO", "WORLD", 5);
    TallyOfFive([Miss, Miss, Miss, Hit, Present]);
  }

  lemma ScoreHelloQuite()
    ensures Score("HELLO", "QUITE") == [Miss, Present, Miss, Miss, Miss]
  {
    ScoreOfFive("HELLO", "QUITE", Miss, Present, Miss, Miss, Miss);
  }

  lemma HelloOnQuite()
    ensures Evaluate("HELLO", "QUITE", 5) == CandidateResult("QUITE", [Miss, Present, Miss, Miss, Miss], 0, 1)
  {
    ScoreHelloQuite();
    CalculateResultOnWords("HELLO", "QUITE", 5);
    TallyOfFive([Miss, Present, Miss, Miss, Miss]);
  }

  lemma HelloOnFancy()
    ensures Evaluate("HELLO", "FANCY", 5) == CandidateResult("FANCY", Misses, 0, 0)
  {
    NoSharedLetterAllMiss("HELLO", "FANCY");
    assert Score("HELLO", "FANCY") == Misses;
    CalculateResultOnWords("HELLO", "FANCY", 5);
    TallyOfFive(Misses);
  }

  lemma ScoreHelloFresh()
    ensures Score("HELLO", "FRESH") == [Present, Present, Miss, Miss, Miss]
  {
    ScoreOfFive("HELLO", "FRESH", Present, Present, Miss, Miss, Miss);
  }

  lemma HelloOnFresh()
    ensures Evaluate("HELLO", "FRESH", 5) == CandidateResult("FRESH", [Present, Present, Miss, Miss, Miss], 0, 2)
  {
    ScoreHelloFresh();
    CalculateResultOnWords("HELLO", "FRESH", 5);
    TallyOfFive([Present, Present, Miss, Miss, Miss]);
  }

  lemma HelloOnPanic()
    ensures Evaluate("HELLO", "PANIC", 5) == CandidateResult("PANIC", Misses, 0, 0)
  {
    NoSharedLetterAllMiss("HELLO", "PANIC");
    assert Score("HELLO", "PANIC") == Misses;
    CalculateResultOnWords("HELLO", "PANIC", 5);
    TallyOfFive(Misses);
  }

  lemma HelloOnCrazy()
    ensures Evaluate("HELLO", "CRAZY", 5) == CandidateResult("CRAZY", Misses, 0, 0)
  {
    NoSharedLetterAllMiss("HELLO", "CRAZY");
    assert Score("HELLO", "CRAZY") == Misses;
    CalculateResultOnWords("HELLO", "CRAZY", 5);
    TallyOfFive(Misses);
  }

  lemma HelloOnBuggy()
    ensures Evaluate("HELLO", "BUGGY", 5) == CandidateResult("BUGGY", Misses, 0, 0)
  {
    NoSharedLetterAllMiss("HELLO", "BUGGY");
    assert Score("HELLO", "BUGGY") == Misses;
    CalculateResultOnWords("HELLO", "BUGGY", 5);
    TallyOfFive(Misses);
  }

  lemma WorldOnFancy()
    ensures Evaluate("WORLD", "FANCY", 5) == CandidateResult("FANCY", Misses, 0, 0)
  {
    NoSharedLetterAllMiss("WORLD", "FANCY");
    assert Score("WORLD", "FANCY") == Misses;
    CalculateResultOnWords("WORLD", "FANCY", 5);
    TallyOfFive(Misses);
  }

  lemma WorldOnPanic()
    ensures Evaluate("WORLD", "PANIC", 5) == CandidateResult("PANIC", Misses, 0, 0)
  {
    NoSharedLetterAllMiss("WORLD", "PANIC");
    assert Score("WORLD", "PANIC") == Misses;
    CalculateResultOnWords("WORLD", "PANIC", 5);
    TallyOfFive(Misses);
  }

  lemma ScoreWorldCrazy()
    ensures Score("WORLD", "CRAZY") == [Miss, Miss, Present, Miss, Miss]
  {
    ScoreOfFive("WORLD", "CRAZY", Miss, Miss, Present, Miss, Miss);
  }

  lemma WorldOnCrazy()
    ensures Evaluate("WORLD", "CRAZY", 5) == CandidateResult("CRAZY", [Miss, Miss, Present, Miss, Miss], 0, 1)
  {
    ScoreWorldCrazy();
    CalculateResultOnWords("WORLD", "CRAZY", 5);
    TallyOfFive([Miss, Miss, Present, Miss, Miss]);
  }

  lemma WorldOnBuggy()
    ensures Evaluate("WORLD", "BUGGY", 5) == CandidateResult("BUGGY", Misses, 0, 0)
  {
    NoSharedLetterAllMiss("WORLD", "BUGGY");
    assert Score("WORLD", "BUGGY") == Misses;
    CalculateResultOnWords("WORLD", "BUGGY", 5);
    TallyOfFive(Misses);
  }

  lemma ScoreFreshFancy()
    ensures Score("FRESH", "FANCY") == [Hit, Miss, Miss, Miss, Miss]
  {
    ScoreOfFive("FRESH", "FANCY", Hit, Miss, Miss, Miss, Miss);
  }

  lemma FreshOnFancy()
    ensures Evaluate("FRESH", "FANCY", 5) == CandidateResult("FANCY", [Hit, Miss, Miss, Miss, Miss], 1, 0)
  {
    ScoreFreshFancy();
    CalculateResultOnWords("FRESH", "FANCY", 5);
    TallyOfFive([Hit, Miss, Miss, Miss, Miss]);
  }

  lemma FreshOnPanic()
    ensures Evaluate("FRESH", "PANIC", 5) == CandidateResult("PANIC", Misses, 0, 0)
  {
    NoSharedLetterAllMiss("FRESH", "PANIC");
    assert Score("FRESH", "PANIC") == Misses;
    CalculateResultOnWords("FRESH", "PANIC", 5);
    TallyOfFive(Misses);
  }

  lemma FreshOnBuggy()
    ensures Evaluate("FRESH", "BUGGY", 5) == CandidateResult("BUGGY", Misses, 0, 0)
  {
    NoSharedLetterAllMiss("FRESH", "BUGGY");
    assert Score("FRESH", "BUGGY") == Misses;
    CalculateResultOnWords("FRESH", "BUGGY", 5);
    TallyOfFive(Misses);
  }

  lemma ScoreCrazyPanic()
    ensures Score("CRAZY", "PANIC") == [Present, Miss, Present, Miss, Miss]
  {
    ScoreOfFive("CRAZY", "PANIC", Present, Miss, Present, Miss, Miss);
  }

  lemma CrazyOnPanic()
    ensures Evaluate("CRAZY", "PANIC", 5) == CandidateResult("PANIC", [Present, Miss, Present, Miss, Miss], 0, 2)
  {
    ScoreCrazyPanic();
    CalculateResultOnWords("CRAZY", "PANIC", 5);
    TallyOfFive([Present, Miss, Present, Miss, Miss]);
  }

  lemma ScoreCrazyBuggy()
    ensures Score("CRAZY", "BUGGY") == [Miss, Miss, Miss, Miss, Hit]
  {
    ScoreOfFive("CRAZY", "BUGGY", Miss, Miss, Miss, Miss, Hit);
  }

  lemma CrazyOnBuggy()
    ensures Evaluate("CRAZY", "BUGGY", 5) == CandidateResult("BUGGY", [Miss, Miss, Miss, Miss, Hit], 1, 0)
  {
    ScoreCrazyBuggy();
    CalculateResultOnWords("CRAZY", "BUGGY", 5);
    TallyOfFive([Miss, Miss, Miss, Miss, Hit]);
  }

  lemma ScoreQuitePanic()
    ensures Score("QUITE", "PANIC") == [Miss, Miss, Present, Miss, Miss]
  {
    ScoreOfFive("QUITE", "PANIC", Miss, Miss, Present, Miss, Miss);
  }

  lemma QuiteOnPanic()
    ensures Evaluate("QUITE", "PANIC", 5) == CandidateResult("PANIC", [Miss, Miss, Present, Miss, Miss], 0, 1)
  {
    ScoreQuitePanic();
    CalculateResultOnWords("QUITE", "PANIC", 5);
    TallyOfFive([Miss, Miss, Present, Miss, Miss]);
  }

  lemma ScoreFancyPanic()
    ensures Score("FANCY", "PANIC") == [Miss, Hit, Hit, Present, Miss]
  {
    ScoreOfFive("FANCY", "PANIC", Miss, Hit, Hit, Present, Miss);
  }

  lemma FancyOnPanic()
    ensures Evaluate("FANCY", "PANIC", 5) == CandidateResult("PANIC", [Miss, Hit, Hit, Present, Miss], 2, 1)
  {
    ScoreFancyPanic();
    CalculateResultOnWords("FANCY", "PANIC", 5);
    TallyOfFive([Miss, Hit, Hit, Present, Miss]);
  }

  // ---------------------------------------------------------------------
  // The candidates each guess leaves

  /** `EvaluateAll` is pinned down by the record of each candidate. */
  lemma EvaluateAllOf(guess: string, cands: seq<string>, rs: seq<CandidateResult>)
    requires |cands| == |rs|
    requires forall i | 0 <= i < |cands| :: Evaluate(guess, cands[i], 5) == rs[i]
    ensures EvaluateAll(guess, cands, 5) == rs
  {
  }

  const HelloRecords: seq<CandidateResult> := [
    CandidateResult("HELLO", [Hit, Hit, Hit, Hit, Hit], 5, 0),
    CandidateResult("WORLD", [Miss, Miss, Miss, Hit, Present], 1, 1),
    CandidateResult("QUITE", [Miss, Present, Miss, Miss, Miss], 0, 1),
    CandidateResult("FANCY", Misses, 0, 0),
    CandidateResult("FRESH", [Present, Present, Miss, Miss, Miss], 0, 2),
    CandidateResult("PANIC", Misses, 0, 0),
    CandidateResult("CRAZY", Misses, 0, 0),
    CandidateResult("BUGGY", Misses, 0, 0)]

  /** HELLO evaluated against the whole word list, in four pieces so that
      each stays small. */
  lemma EvaluateHello(guess: string, cands: seq<string>, u: real)
    requires 0.0 <= u < 1.0
    requires guess == "HELLO" && cands == Words
    ensures GetRemainingCandidates(guess, cands, 5, u) == Eliminate(HelloRecords, u)
  {
    HelloOnWord0(guess, cands);
    HelloOnWords1To3(guess, cands);
    HelloOnWords4To7(guess, cands);
    EvaluateAllOf(guess, cands, HelloRecords);
  }

  lemma HelloOnWord0(guess: string, cands: seq<string>)
    requires guess == "HELLO" && cands == Words
    ensures forall i | 0 <= i < 1 :: Evaluate(guess, cands[i], 5) == HelloRecords[i]
  {
    assert cands[0] == "HELLO";
    HelloOnHello();
  }

  lemma HelloOnWords1To3(guess: string, cands: seq<string>)
    requires guess == "HELLO" && cands == Words
    ensures forall i | 1 <= i < 4 :: Evaluate(guess, cands[i], 5) == HelloRecords[i]
  {
    forall i | 1 <= i < 4 ensures Evaluate(guess, cands[i], 5) == HelloRecords[i] {
      if i == 1 {
        HelloOnWord1(guess, cands);
      }
      else if i == 2 {
        HelloOnWord2(guess, cands);
      }
      else {
        HelloOnWord3(guess, cands);
      }
    }
  }

  lemma HelloOnWord1(guess: string, cands: seq<string>)
    requires guess == "HELLO" && cands == Words
    ensures Evaluate(guess, cands[1], 5) == HelloRecords[1]
  {
    assert cands[1] == "WORLD";
    HelloOnWorld();
  }

  lemma HelloOnWord2(guess: string, cands: seq<string>)
    requires guess == "HELLO" && cands == Words
    ensures Evaluate(guess, cands[2], 5) == HelloRecords[2]
  {
    assert cands[2] == "QUITE";
    HelloOnQuite();
  }

  lemma HelloOnWord3(guess: string, cands: seq<string>)
    requires guess == "HELLO" && cands == Words
    ensures Evaluate(guess, cands[3], 5) == HelloRecords[3]
  {
    assert cands[3] == "FANCY";
    HelloOnFancy();
  }

  lemma HelloOnWords4To7(guess: string, cands: seq<string>)
    requires guess == "HELLO" && cands == Words
    ensures forall i | 4 <= i < 8 :: Evaluate(guess, cands[i], 5) == HelloRecords[i]
  {
    forall i | 4 <= i < 8 ensures Evaluate(guess, cands[i], 5) == HelloRecords[i] {
      if i == 4 {
        assert cands[4] == "FRESH";
        HelloOnFresh();
      }
      else if i == 5 {
        assert cands[5] == "PANIC";
        HelloOnPanic();
      }
      else if i == 6 {
        assert cands[6] == "CRAZY";
        HelloOnCrazy();
      }
      else {
        assert cands[7] == "BUGGY";
        HelloOnBuggy();
      }
    }
  }

  /** The selection on eight records tallied as HELLO's are: the six
      without a Hit tie, and the four of those without a Present survive. */
  lemma PickHello(es: seq<CandidateResult>, u: real)
    requires 0.0 <= u < 1.0
    requires |es| == 8
    requires es[0].numberOfHit == 5 && es[1].numberOfHit == 1
    requires forall i | 2 <= i < 8 :: es[i].numberOfHit == 0
    requires es[2].numberOfPresent == 1 && es[4].numberOfPresent == 2
    requires es[3].numberOfPresent == 0 && es[5].numberOfPresent == 0
    requires es[6].numberOfPresent == 0 && es[7].numberOfPresent == 0
    ensures Eliminate(es, u) == [es[3], es[5], es[6], es[7]]
  {
    HitBucketAfterHello(es);
    LowestIsZero(es, 2);
    var best := es[2..];
    PresentBucketAfterHello(best);
    assert best[1] in Bucket(best, ByPresent, 0);
    NoPresentPreferred(es, u);
  }

  lemma HitBucketAfterHello(es: seq<CandidateResult>)
    requires |es| == 8
    requires es[0].numberOfHit == 5 && es[1].numberOfHit == 1
    requires forall i | 2 <= i < 8 :: es[i].numberOfHit == 0
    ensures Bucket(es, ByHit, 0) == es[2..]
  {
    assert es == es[..2] + es[2..];
    BucketNone(es[..2], ByHit, 0);
    BucketAll(es[2..], ByHit, 0);
    BucketAppend(es[..2], es[2..], ByHit, 0);
  }

  lemma PresentBucketAfterHello(best: seq<CandidateResult>)
    requires |best| == 6
    requires best[0].numberOfPresent == 1 && best[2].numberOfPresent == 2
    requires best[1].numberOfPresent == 0 && best[3].numberOfPresent == 0
    requires best[4].numberOfPresent == 0 && best[5].numberOfPresent == 0
    ensures Bucket(best, ByPresent, 0) == [best[1], best[3], best[4], best[5]]
  {
    var p0, p1, p2, p3 := best[..1], best[1..2], best[2..3], best[3..];
    assert best == p0 + (p1 + (p2 + p3));
    BucketNone(p0, ByPresent, 0);
    BucketAll(p1, ByPresent, 0);
    BucketNone(p2, ByPresent, 0);
    BucketAll(p3, ByPresent, 0);
    BucketAppend(p2, p3, ByPresent, 0);
    BucketAppend(p1, p2 + p3, ByPresent, 0);
    BucketAppend(p0, p1 + (p2 + p3), ByPresent, 0);
  }

  /** Round 1, HELLO against all eight words: the fewest Hits is 0, and of
      those six, the four without a Present letter survive, all Miss. */
  lemma AfterHello(guess: string, cands: seq<string>, u: real)
    requires 0.0 <= u < 1.0
    requires guess == "HELLO" && cands == Words
    ensures GetRemainingCandidates(guess, cands, 5, u) == [HelloRecords[3], HelloRecords[5], HelloRecords[6], HelloRecords[7]]
  {
    EvaluateHello(guess, cands, u);
    PickHelloRecords(u);
  }

  lemma PickHelloRecords(u: real)
    requires 0.0 <= u < 1.0
    ensures Eliminate(HelloRecords, u) == [HelloRecords[3], HelloRecords[5], HelloRecords[6], HelloRecords[7]]
  {
    PickHello(HelloRecords, u);
  }

  lemma SurvivorsHello()
    ensures var rs := [HelloRecords[3], HelloRecords[5], HelloRecords[6], HelloRecords[7]];
            Names(rs) == AfterRound1 && rs[0].result == Misses
  {
  }

  const AfterRound1: seq<string> := ["FANCY", "PANIC", "CRAZY", "BUGGY"]

  const WorldRecords: seq<CandidateResult> := [
    CandidateResult("FANCY", Misses, 0, 0),
    CandidateResult("PANIC", Misses, 0, 0),
    CandidateResult("CRAZY", [Miss, Miss, Present, Miss, Miss], 0, 1),
    CandidateResult("BUGGY", Misses, 0, 0)]

  lemma EvaluateWorld(guess: string, cands: seq<string>, u: real)
    requires 0.0 <= u < 1.0
    requires guess == "WORLD" && cands == AfterRound1
    ensures GetRemainingCandidates(guess, cands, 5, u) == Eliminate(WorldRecords, u)
  {
    forall i | 0 <= i < |cands| ensures Evaluate(guess, cands[i], 5) == WorldRecords[i] {
      if i == 0 {
        assert cands[0] == "FANCY";
        WorldOnFancy();
      }
      else if i == 1 {
        assert cands[1] == "PANIC";
        WorldOnPanic();
      }
      else if i == 2 {
        assert cands[2] == "CRAZY";
        WorldOnCrazy();
      }
      else {
        assert cands[3] == "BUGGY";
        WorldOnBuggy();
      }
    }
    EvaluateAllOf(guess, cands, WorldRecords);
  }

  /** The selection on four records without a Hit, of which the third has
      a Present letter: the other three survive. */
  lemma PickWorld(es: seq<CandidateResult>, u: real)
    requires 0.0 <= u < 1.0
    requires |es| == 4
    requires forall i | 0 <= i < 4 :: es[i].numberOfHit == 0
    requires es[0].numberOfPresent == 0 && es[1].numberOfPresent == 0
    requires es[2].numberOfPresent == 1 && es[3].numberOfPresent == 0
    ensures Eliminate(es, u) == [es[0], es[1], es[3]]
  {
    BucketAll(es, ByHit, 0);
    LowestIsZero(es, 0);
    PresentBucketAfterWorld(es);
    assert es[0] in Bucket(es, ByPresent, 0);
    NoPresentPreferred(es, u);
  }

  lemma PresentBucketAfterWorld(es: seq<CandidateResult>)
    requires |es| == 4
    requires es[0].numberOfPresent == 0 && es[1].numberOfPresent == 0
    requires es[2].numberOfPresent == 1 && es[3].numberOfPresent == 0
    ensures Bucket(es, ByPresent, 0) == [es[0], es[1], es[3]]
  {
    var p0, p1, p2 := es[..2], es[2..3], es[3..];
    assert es == p0 + (p1 + p2);
    BucketAll(p0, ByPresent, 0);
    BucketNone(p1, ByPresent, 0);
    BucketAll(p2, ByPresent, 0);
    BucketAppend(p1, p2, ByPresent, 0);
    BucketAppend(p0, p1 + p2, ByPresent, 0);
  }

  /** Round 2, WORLD: no candidate has a Hit, and the three without a
      Present letter survive, all Miss. */
  lemma AfterWorld(guess: string, cands: seq<string>, u: real)
    requires 0.0 <= u < 1.0
    requires guess == "WORLD" && cands == AfterRound1
    ensures GetRemainingCandidates(guess, cands, 5, u) == [WorldRecords[0], WorldRecords[1], WorldRecords[3]]
  {
    EvaluateWorld(guess, cands, u);
    PickWorldRecords(u);
  }

  lemma PickWorldRecords(u: real)
    requires 0.0 <= u < 1.0
    ensures Eliminate(WorldRecords, u) == [WorldRecords[0], WorldRecords[1], WorldRecords[3]]
  {
    PickWorld(WorldRecords, u);
  }

  lemma SurvivorsWorld()
    ensures var rs := [WorldRecords[0], WorldRecords[1], WorldRecords[3]];
            Names(rs) == AfterRound2 && rs[0].result == Misses
  {
  }

  const AfterRound2: seq<string> := ["FANCY", "PANIC", "BUGGY"]

  const FreshRecords: seq<CandidateResult> := [
    CandidateResult("FANCY", [Hit, Miss, Miss, Miss, Miss], 1, 0),
    CandidateResult("PANIC", Misses, 0, 0),
    CandidateResult("BUGGY", Misses, 0, 0)]

  lemma EvaluateFresh(guess: string, cands: seq<string>, u: real)
    requires 0.0 <= u < 1.0
    requires guess == "FRESH" && cands == AfterRound2
    ensures GetRemainingCandidates(guess, cands, 5, u) == Eliminate(FreshRecords, u)
  {
    forall i | 0 <= i < |cands| ensures Evaluate(guess, cands[i], 5) == FreshRecords[i] {
      if i == 0 {
        assert cands[0] == "FANCY";
        FreshOnFancy();
      }
      else if i == 1 {
        assert cands[1] == "PANIC";
        FreshOnPanic();
      }
      else {
        assert cands[2] == "BUGGY";
        FreshOnBuggy();
      }
    }
    EvaluateAllOf(guess, cands, FreshRecords);
  }

  /** The selection on three records of which only the first has a Hit and
      none a Present letter: the last two survive. */
  lemma PickFresh(es: seq<CandidateResult>, u: real)
    requires 0.0 <= u < 1.0
    requires |es| == 3
    requires es[0].numberOfHit == 1 && es[1].numberOfHit == 0 && es[2].numberOfHit == 0
    requires es[1].numberOfPresent == 0 && es[2].numberOfPresent == 0
    ensures Eliminate(es, u) == [es[1], es[2]]
  {
    HitBucketAfterFresh(es);
    LowestIsZero(es, 1);
    var best := es[1..];
    BucketAll(best, ByPresent, 0);
    assert best[0] in Bucket(best, ByPresent, 0);
    NoPresentPreferred(es, u);
  }

  lemma HitBucketAfterFresh(es: seq<CandidateResult>)
    requires |es| == 3
    requires es[0].numberOfHit == 1 && es[1].numberOfHit == 0 && es[2].numberOfHit == 0
    ensures Bucket(es, ByHit, 0) == es[1..]
  {
    assert es == es[..1] + es[1..];
    BucketNone(es[..1], ByHit, 0);
    BucketAll(es[1..], ByHit, 0);
    BucketAppend(es[..1], es[1..], ByHit, 0);
  }

  /** Round 3, FRESH: FANCY takes a Hit, and the other two survive, all
      Miss. */
  lemma AfterFresh(guess: string, cands: seq<string>, u: real)
    requires 0.0 <= u < 1.0
    requires guess == "FRESH" && cands == AfterRound2
    ensures GetRemainingCandidates(guess, cands, 5, u) == [FreshRecords[1], FreshRecords[2]]
  {
    EvaluateFresh(guess, cands, u);
    PickFreshRecords(u);
  }

  lemma PickFreshRecords(u: real)
    requires 0.0 <= u < 1.0
    ensures Eliminate(FreshRecords, u) == [FreshRecords[1], FreshRecords[2]]
  {
    PickFresh(FreshRecords, u);
  }

  lemma SurvivorsFresh()
    ensures var rs := [FreshRecords[1], FreshRecords[2]];
            Names(rs) == AfterRound3 && rs[0].result == Misses
  {
  }

  const AfterRound3: seq<string> := ["PANIC", "BUGGY"]

  const CrazyRecords: seq<CandidateResult> := [
    CandidateResult("PANIC", [Present, Miss, Present, Miss, Miss], 0, 2),
    CandidateResult("BUGGY", [Miss, Miss, Miss, Miss, Hit], 1, 0)]

  lemma EvaluateCrazy(guess: string, cands: seq<string>, u: real)
    requires 0.0 <= u < 1.0
    requires guess == "CRAZY" && cands == AfterRound3
    ensures GetRemainingCandidates(guess, cands, 5, u) == Eliminate(CrazyRecords, u)
  {
    forall i | 0 <= i < |cands| ensures Evaluate(guess, cands[i], 5) == CrazyRecords[i] {
      if i == 0 {
        assert cands[0] == "PANIC";
        CrazyOnPanic();
      }
      else {
        assert cands[1] == "BUGGY";
        CrazyOnBuggy();
      }
    }
    EvaluateAllOf(guess, cands, CrazyRecords);
  }

  /** The selection on two records of which only the first lacks a Hit: it
      alone survives. */
  lemma PickCrazy(es: seq<CandidateResult>, u: real)
    requires 0.0 <= u < 1.0
    requires |es| == 2 && es[0].numberOfHit == 0 && es[1].numberOfHit == 1
    ensures Eliminate(es, u) == [es[0]]
  {
    assert es == es[..1] + es[1..];
    BucketAll(es[..1], ByHit, 0);
    BucketNone(es[1..], ByHit, 0);
    BucketAppend(es[..1], es[1..], ByHit, 0);
    LowestIsZero(es, 0);
  }

  /** With a record of no Hits at `j`, the lowest Hit tally is 0. */
  lemma LowestIsZero(es: seq<CandidateResult>, j: nat)
    requires j < |es| && es[j].numberOfHit == 0
    ensures LowestKey(es, ByHit) == 0
  {
    assert es[j] in es;
  }

  /** Round 4, CRAZY: only PANIC has no Hit, so it alone survives, with two
      Present letters. */
  lemma AfterCrazy(guess: string, cands: seq<string>, u: real)
    requires 0.0 <= u < 1.0
    requires guess == "CRAZY" && cands == AfterRound3
    ensures GetRemainingCandidates(guess, cands, 5, u) == [CrazyRecords[0]]
  {
    EvaluateCrazy(guess, cands, u);
    PickCrazyRecords(u);
  }

  lemma PickCrazyRecords(u: real)
    requires 0.0 <= u < 1.0
    ensures Eliminate(CrazyRecords, u) == [CrazyRecords[0]]
  {
    PickCrazy(CrazyRecords, u);
  }

  lemma SurvivorsCrazy()
    ensures var rs := [CrazyRecords[0]];
            Names(rs) == AfterRound4 && rs[0].result == [Present, Miss, Present, Miss, Miss]
  {
  }

  const AfterRound4: seq<string> := ["PANIC"]

  // ---------------------------------------------------------------------
  // The game, guess by guess

  /** What the constructor builds from the eight words and six rounds. */
  const Start: Core := Core(Words, 5, 6, false, None, None)

  const Record1: GuessResult := GuessResult("HELLO", Misses, false)
  const Record2: GuessResult := GuessResult("WORLD", Misses, false)
  const Record3: GuessResult := GuessResult("FRESH", Misses, false)
  const Record4: GuessResult := GuessResult("CRAZY", [Present, Miss, Present, Miss, Miss], false)
  const Record5: GuessResult := GuessResult("QUITE", [Miss, Miss, Present, Miss, Miss], false)
  const Record6: GuessResult := GuessResult("FANCY", [Miss, Hit, Hit, Present, Miss], false)

  /** The player's ledger after each guess. */
  const Ledger1: AbsurdleLedger := History(6, [Record1], CandidateState(AfterRound1, None))
  const Ledger2: AbsurdleLedger := History(6, [Record1, Record2], CandidateState(AfterRound2, None))
  const Ledger3: AbsurdleLedger := History(6, [Record1, Record2, Record3], CandidateState(AfterRound3, None))
  const Ledger4: AbsurdleLedger := History(6, [Record1, Record2, Record3, Record4], CandidateState(AfterRound4, None))
  const Ledger5: AbsurdleLedger :=
    History(6, [Record1, Record2, Record3, Record4, Record5], CandidateState(AfterRound4, None))
  const Ledger6: AbsurdleLedger :=
    History(6, [Record1, Record2, Record3, Record4, Record5, Record6], CandidateState(AfterRound4, None))

  /** Every word of the list is five capital letters. */
  lemma Capitals(w: string)
    requires w in Words
    ensures |w| == 5 && forall i | 0 <= i < |w| :: IsUpperLetter(w[i])
  {
  }

  lemma NewGameStart(config: Config)
    requires config == Config(6, Words)
    ensures NewAbsurdleGame(config) == Success(Absurdle(Start, map[]))
  {
    forall i | 0 <= i < |Words| ensures UpperAll(Words)[i] == Words[i] {
      Capitals(Words[i]);
      UpperOfCapitals(Words[i]);
    }
    assert UpperAll(config.wordList) == Words;
    forall w | w in Words ensures |w| == |Words[0]| {
      Capitals(w);
    }
    assert ValidateWordList(Words) == None;
    assert NewCore(config) == Success(Start);
  }

  /** A listed word passes the preamble of the open game. */
  lemma Accepted(c: Core, word: string)
    requires c == Start && word in Words
    ensures Preamble(c, word) == Success(word)
  {
    Capitals(word);
    PreambleAcceptsListedCapitals(c, word);
  }

  /** Each ledger is the one before with the candidates narrowed and the
      record appended. */
  lemma LedgerAfterHello()
    ensures AddGuess(SetCandidateWords(NewAbsurdleHistory(6, Words), AfterRound1), Record1) == Ledger1
  {
  }

  lemma LedgerAfterWorld()
    ensures AddGuess(SetCandidateWords(Ledger1, AfterRound2), Record2) == Ledger2
  {
  }

  lemma LedgerAfterFresh()
    ensures AddGuess(SetCandidateWords(Ledger2, AfterRound3), Record3) == Ledger3
  {
  }

  lemma LedgerAfterCrazy()
    ensures AddGuess(SetCandidateWords(Ledger3, AfterRound4), Record4) == Ledger4
  {
  }

  lemma LedgerAfterQuite()
    ensures AddGuess(Ledger4, Record5) == Ledger5
  {
  }

  lemma LedgerAfterFancy()
    ensures AddGuess(Ledger5, Record6) == Ledger6
  {
  }

  lemma UpdateTwice<K, V>(m: map<K, V>, k: K, a: V, b: V)
    ensures m[k := a][k := b] == m[k := b]
  {
  }

  /** A guess the preamble accepts, by a player with rounds left and several
      candidates, that leaves the survivors `rs` without winning. */
  lemma MultiStep(g: Absurdle, userId: string, word: string, now: Stamp, u: real, rs: seq<CandidateResult>)
    requires 0.0 <= u < 1.0
    requires Preamble(g.core, word) == Success(word)
    requires var h := GetOrCreatePlayerHistory(g, userId);
             HasRoundsLeft(h) && |GetCandidateWords(h)| > 1
             && GetRemainingCandidates(word, GetCandidateWords(h), g.core.wordLength, u) == rs
    requires |rs| > 0 && !AllHit(rs[0].result)
    ensures var h := GetOrCreatePlayerHistory(g, userId);
            var r := GuessResult(word, rs[0].result, false);
            Guess(g, userId, word, now, u) == Step(g.(histories := g.histories[userId := AddGuess(SetCandidateWords(h, Names(rs)), r)]), Success(r))
  {
    var h := GetOrCreatePlayerHistory(g, userId);
    var g' := g.(histories := g.histories[userId := h]);
    var r := GuessResult(word, rs[0].result, false);
    MultiCandidateTurn(g', userId, h, word, now, u);
    var s := Turn(g', userId, h, word, now, u);
    var h1 := AddGuess(SetCandidateWords(h, Names(rs)), r);
    assert s.outcome.value == r;
    UpdateTwice(g.histories, userId, h, h1);
    assert Guess(g, userId, word, now, u) == s;
  }

  /** A guess the preamble accepts, by a player with rounds left and one
      candidate, that does not name it. */
  lemma SingleStep(g: Absurdle, userId: string, word: string, now: Stamp, u: real, results: seq<Outcome>)
    requires 0.0 <= u < 1.0
    requires Preamble(g.core, word) == Success(word)
    requires var h := GetOrCreatePlayerHistory(g, userId);
             HasRoundsLeft(h) && |GetCandidateWords(h)| == 1
             && CalculateResult(word, GetCandidateWords(h)[0], g.core.wordLength) == results
    requires !AllHit(results)
    ensures var h := GetOrCreatePlayerHistory(g, userId);
            var r := GuessResult(word, results, false);
            Guess(g, userId, word, now, u) == Step(g.(histories := g.histories[userId := AddGuess(h, r)]), Success(r))
  {
    var h := GetOrCreatePlayerHistory(g, userId);
    var g' := g.(histories := g.histories[userId := h]);
    var r := GuessResult(word, results, false);
    SingleCandidateTurn(g', userId, h, word, now, u);
    var s := Turn(g', userId, h, word, now, u);
    assert s.outcome.value == r;
    UpdateTwice(g.histories, userId, h, AddGuess(h, r));
    assert Guess(g, userId, word, now, u) == s;
  }

  lemma GuessHello(g: Absurdle, userId: string, word: string, now: Stamp, u: real)
    requires 0.0 <= u < 1.0
    requires g.core == Start && userId !in g.histories && word == "HELLO"
    ensures Guess(g, userId, word, now, u) == Step(g.(histories := g.histories[userId := Ledger1]), Success(Record1))
  {
    Accepted(g.core, word);
    var h := GetOrCreatePlayerHistory(g, userId);
    var rs := [HelloRecords[3], HelloRecords[5], HelloRecords[6], HelloRecords[7]];
    assert GetRemainingCandidates(word, GetCandidateWords(h), 5, u) == rs by {
      AfterHello(word, GetCandidateWords(h), u);
    }
    SurvivorsHello();
    assert rs[0].result[0] != Hit;
    MultiStep(g, userId, word, now, u, rs);
    LedgerAfterHello();
  }

  lemma GuessWorld(g: Absurdle, userId: string, word: string, now: Stamp, u: real)
    requires 0.0 <= u < 1.0
    requires g.core == Start && userId in g.histories && g.histories[userId] == Ledger1 && word == "WORLD"
    ensures Guess(g, userId, word, now, u) == Step(g.(histories := g.histories[userId := Ledger2]), Success(Record2))
  {
    Accepted(g.core, word);
    var h := GetOrCreatePlayerHistory(g, userId);
    var rs := [WorldRecords[0], WorldRecords[1], WorldRecords[3]];
    assert GetRemainingCandidates(word, GetCandidateWords(h), 5, u) == rs by {
      AfterWorld(word, GetCandidateWords(h), u);
    }
    SurvivorsWorld();
    assert rs[0].result[0] != Hit;
    MultiStep(g, userId, word, now, u, rs);
    LedgerAfterWorld();
  }

  lemma GuessFresh(g: Absurdle, userId: string, word: string, now: Stamp, u: real)
    requires 0.0 <= u < 1.0
    requires g.core == Start && userId in g.histories && g.histories[userId] == Ledger2 && word == "FRESH"
    ensures Guess(g, userId, word, now, u) == Step(g.(histories := g.histories[userId := Ledger3]), Success(Record3))
  {
    Accepted(g.core, word);
    var h := GetOrCreatePlayerHistory(g, userId);
    var rs := [FreshRecords[1], FreshRecords[2]];
    assert GetRemainingCandidates(word, GetCandidateWords(h), 5, u) == rs by {
      AfterFresh(word, GetCandidateWords(h), u);
    }
    SurvivorsFresh();
    assert rs[0].result[0] != Hit;
    MultiStep(g, userId, word, now, u, rs);
    LedgerAfterFresh();
  }

  lemma GuessCrazy(g: Absurdle, userId: string, word: string, now: Stamp, u: real)
    requires 0.0 <= u < 1.0
    requires g.core == Start && userId in g.histories && g.histories[userId] == Ledger3 && word == "CRAZY"
    ensures Guess(g, userId, word, now, u) == Step(g.(histories := g.histories[userId := Ledger4]), Success(Record4))
  {
    Accepted(g.core, word);
    var h := GetOrCreatePlayerHistory(g, userId);
    var rs := [CrazyRecords[0]];
    assert GetRemainingCandidates(word, GetCandidateWords(h), 5, u) == rs by {
      AfterCrazy(word, GetCandidateWords(h), u);
    }
    SurvivorsCrazy();
    assert rs[0].result[0] != Hit;
    MultiStep(g, userId, word, now, u, rs);
    LedgerAfterCrazy();
  }

  lemma GuessQuite(g: Absurdle, userId: string, word: string, now: Stamp, u: real)
    requires 0.0 <= u < 1.0
    requires g.core == Start && userId in g.histories && g.histories[userId] == Ledger4 && word == "QUITE"
    ensures Guess(g, userId, word, now, u) == Step(g.(histories := g.histories[userId := Ledger5]), Success(Record5))
  {
    Accepted(g.core, word);
    assert CalculateResult(word, "PANIC", 5) == [Miss, Miss, Present, Miss, Miss] by {
      QuiteOnPanic();
    }
    SingleStep(g, userId, word, now, u, [Miss, Miss, Present, Miss, Miss]);
    LedgerAfterQuite();
  }

  lemma GuessFancy(g: Absurdle, userId: string, word: string, now: Stamp, u: real)
    requires 0.0 <= u < 1.0
    requires g.core == Start && userId in g.histories && g.histories[userId] == Ledger5 && word == "FANCY"
    ensures Guess(g, userId, word, now, u) == Step(g.(histories := g.histories[userId := Ledger6]), Success(Record6))
  {
    Accepted(g.core, word);
    assert CalculateResult(word, "PANIC", 5) == [Miss, Hit, Hit, Present, Miss] by {
      FancyOnPanic();
    }
    SingleStep(g, userId, word, now, u, [Miss, Hit, Hit, Present, Miss]);
    LedgerAfterFancy();
  }

  /** The whole losing game: each of the six guesses is accepted with the
      outcome the example expects and leaves the player's ledger as listed,
      the game never ends, and a seventh guess, even of the last candidate,
      is refused for want of rounds. */
  lemma LosingGame(config: Config, userId: string, now: Stamp, u: real)
    requires 0.0 <= u < 1.0
    requires config == Config(6, Words)
    ensures NewAbsurdleGame(config).Success?
    ensures var s1 := Guess(NewAbsurdleGame(config).value, userId, "HELLO", now, u);
            var s2 := Guess(s1.state, userId, "WORLD", now, u);
            var s3 := Guess(s2.state, userId, "FRESH", now, u);
            var s4 := Guess(s3.state, userId, "CRAZY", now, u);
            var s5 := Guess(s4.state, userId, "QUITE", now, u);
            var s6 := Guess(s5.state, userId, "FANCY", now, u);
            && s1 == Step(Absurdle(Start, map[userId := Ledger1]), Success(Record1))
            && s2 == Step(Absurdle(Start, map[userId := Ledger2]), Success(Record2))
            && s3 == Step(Absurdle(Start, map[userId := Ledger3]), Success(Record3))
            && s4 == Step(Absurdle(Start, map[userId := Ledger4]), Success(Record4))
            && s5 == Step(Absurdle(Start, map[userId := Ledger5]), Success(Record5))
            && s6 == Step(Absurdle(Start, map[userId := Ledger6]), Success(Record6))
            && Guess(s6.state, userId, "PANIC", now, u).outcome == Failure(NoRoundsLeft)
  {
    NewGameStart(config);
    var g0 := Absurdle(Start, map[]);
    GuessHello(g0, userId, "HELLO", now, u);
    var g1 := Absurdle(Start, map[userId := Ledger1]);
    GuessWorld(g1, userId, "WORLD", now, u);
    UpdateTwice(map[], userId, Ledger1, Ledger2);
    var g2 := Absurdle(Start, map[userId := Ledger2]);
    GuessFresh(g2, userId, "FRESH", now, u);
    UpdateTwice(map[], userId, Ledger2, Ledger3);
    var g3 := Absurdle(Start, map[userId := Ledger3]);
    GuessCrazy(g3, userId, "CRAZY", now, u);
    UpdateTwice(map[], userId, Ledger3, Ledger4);
    var g4 := Absurdle(Start, map[userId := Ledger4]);
    GuessQuite(g4, userId, "QUITE", now, u);
    UpdateTwice(map[], userId, Ledger4, Ledger5);
    var g5 := Absurdle(Start, map[userId := Ledger5]);
    GuessFancy(g5, userId, "FANCY", now, u);
    UpdateTwice(map[], userId, Ledger5, Ledger6);
    var g6 := Absurdle(Start, map[userId := Ledger6]);
    Accepted(Start, "PANIC");
    NoRoundsLeftRejected(g6, userId, "PANIC", now, u);
  }
}
