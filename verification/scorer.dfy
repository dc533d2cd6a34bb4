/** The two-pass letter scorer shared, word for word, by the three game
    classes: pass one marks the Hits and counts the answer letters left
    unmatched; pass two walks the guess left to right and spends those counts
    on Present marks. */
module Scorer {
  import opened Wrappers
  import opened Seqs
  import opened Outcomes

  /** `answerLetterCounts[x] || 0`: a letter never counted reads as zero. */
  function Get<T>(c: map<T, nat>, x: T): nat {
    if x in c then c[x] else 0
  }

  /** Pass one over positions `0 .. k-1`: every position whose guess letter
      differs from the answer letter adds one to the count of that answer
      letter. */
  function Unmatched<T(==)>(g: seq<T>, a: seq<T>, k: nat): map<T, nat>
    requires |g| == |a| && k <= |g|
  {
    if k == 0 then map[]
    else
      var c := Unmatched(g, a, k - 1);
      if g[k - 1] == a[k - 1] then c else c[a[k - 1] := Get(c, a[k - 1]) + 1]
  }

  /** Pass two from position `i` with the counts `c` still unspent: a
      non-Hit position is Present while its letter has a count left, and
      spends one of it; otherwise it stays Miss. */
  function Mark<T(==)>(g: seq<T>, a: seq<T>, i: nat, c: map<T, nat>): (r: seq<Outcome>)
    requires |g| == |a| && i <= |g|
    ensures |r| == |g| - i
    ensures forall j | i <= j < |g| :: r[j - i] == Hit <==> g[j] == a[j]
    decreases |g| - i
  {
    if i == |g| then []
    else if g[i] == a[i] then [Hit] + Mark(g, a, i + 1, c)
    else if Get(c, g[i]) > 0 then [Present] + Mark(g, a, i + 1, c[g[i] := Get(c, g[i]) - 1])
    else [Miss] + Mark(g, a, i + 1, c)
  }

  /** The scoring rule on two letter sequences of one length. */
  function Score<T(==)>(g: seq<T>, a: seq<T>): (r: seq<Outcome>)
    requires |g| == |a|
    ensures |r| == |g|
    ensures forall j | 0 <= j < |g| :: r[j] == Hit <==> g[j] == a[j]
  {
    Mark(g, a, 0, Unmatched(g, a, |g|))
  }

  /** A position of a string read as an array: its letter, or `undefined`
      (`None`) past the end. */
  type Slot = Option<char>

  /** `w.split("")` read at positions `0 .. n-1`. */
  function Slots(w: string, n: nat): (s: seq<Slot>)
    ensures |s| == n
    ensures forall i | 0 <= i < n :: s[i] == (if i < |w| then Some(w[i]) else None)
  {
    seq(n, i requires 0 <= i < n => if i < |w| then Some(w[i]) else None)
  }

  /** `calculateResult(guess, answer)` with the game's `wordLength`: both
      words are read at exactly `wordLength` positions, whatever their own
      lengths, so a position past the end of both words compares `undefined`
      with `undefined` and is a Hit. */
  function CalculateResult(guess: string, answer: string, wordLength: nat): (r: seq<Outcome>)
    ensures |r| == wordLength
    ensures forall i | 0 <= i < wordLength ::
      r[i] == Hit <==> (if i < |guess| && i < |answer| then guess[i] == answer[i]
                        else i >= |guess| && i >= |answer|)
  {
    Score(Slots(guess, wordLength), Slots(answer, wordLength))
  }

  /** The two loops of `calculateResult` as written: an array filled with
      Miss, a count map filled in pass one, spent in pass two. */
  method CalculateResultLoop(guess: string, answer: string, wordLength: nat) returns (result: seq<Outcome>)
    ensures result == CalculateResult(guess, answer, wordLength)
  {
    var g := Slots(guess, wordLength);
    var a := Slots(answer, wordLength);
    var counts;
    result, counts := MarkHits(g, a);
    result := MarkPresents(g, a, result, counts);
  }

  /** The first loop: Hits marked, the other answer letters counted. */
  method MarkHits<T(==)>(g: seq<T>, a: seq<T>) returns (result: seq<Outcome>, counts: map<T, nat>)
    requires |g| == |a|
    ensures |result| == |g|
    ensures counts == Unmatched(g, a, |g|)
    ensures forall j | 0 <= j < |g| :: result[j] == (if g[j] == a[j] then Hit else Miss)
  {
    result := seq(|g|, _ => Miss);
    counts := map[];
    var i := 0;
    while i < |g|
      invariant i <= |g| && |result| == |g|
      invariant counts == Unmatched(g, a, i)
      invariant forall j | 0 <= j < |g| :: result[j] == (if j < i && g[j] == a[j] then Hit else Miss)
    {
      if g[i] == a[i] {
        result := result[i := Hit];
      } else {
        counts := counts[a[i] := Get(counts, a[i]) + 1];
      }
      i := i + 1;
    }
  }

  /** The second loop: every position not already Hit becomes Present while
      its letter still has a count, spending one. The outcome of each
      position is appended as it is settled, which is the in-place update
      read left to right. */
  method MarkPresents<T(==)>(g: seq<T>, a: seq<T>, hits: seq<Outcome>, counts0: map<T, nat>) returns (result: seq<Outcome>)
    requires |g| == |a| == |hits|
    requires forall j | 0 <= j < |g| :: hits[j] == (if g[j] == a[j] then Hit else Miss)
    ensures result == Mark(g, a, 0, counts0)
  {
    result := [];
    var counts: map<T, nat> := counts0;
    var i := 0;
    while i < |g|
      invariant i <= |g| && |result| == i
      invariant result + Mark(g, a, i, counts) == Mark(g, a, 0, counts0)
    {
      ghost var before := counts;
      var r := hits[i];
      if r != Hit {
        var letter := g[i];
        if Get(counts, letter) > 0 {
          r := Present;
          counts := counts[letter := Get(counts, letter) - 1];
        }
      }
      assert (result + [r]) + Mark(g, a, i + 1, counts) == Mark(g, a, 0, counts0) by {
        assert Mark(g, a, i, before) == [r] + Mark(g, a, i + 1, counts);
        AppendAssoc(result, r, Mark(g, a, i + 1, counts));
      }
      result := result + [r];
      i := i + 1;
    }
    assert result + Mark(g, a, i, counts) == result;
  }

  lemma AppendAssoc<T>(p: seq<T>, x: T, rest: seq<T>)
    ensures p + ([x] + rest) == (p + [x]) + rest
  {
  }

  // ---------------------------------------------------------------------
  // Per-letter counting

  function Min(x: nat, y: nat): nat {
    if x <= y then x else y
  }

  /** Positions where guess and answer both hold `x`. */
  function HitOcc<T(==)>(g: seq<T>, a: seq<T>, x: T): nat
    requires |g| == |a|
  {
    if |g| == 0 then 0
    else (if g[0] == a[0] && g[0] == x then 1 else 0) + HitOcc(g[1..], a[1..], x)
  }

  /** Non-Hit positions whose guess letter is `x`. */
  function GuessLeft<T(==)>(g: seq<T>, a: seq<T>, x: T): nat
    requires |g| == |a|
  {
    if |g| == 0 then 0
    else (if g[0] != a[0] && g[0] == x then 1 else 0) + GuessLeft(g[1..], a[1..], x)
  }

  /** Non-Hit positions whose answer letter is `x`: the unmatched copies of `x`. */
  function AnsLeft<T(==)>(g: seq<T>, a: seq<T>, x: T): nat
    requires |g| == |a|
  {
    if |g| == 0 then 0
    else (if g[0] != a[0] && a[0] == x then 1 else 0) + AnsLeft(g[1..], a[1..], x)
  }

  /** Positions where the guess holds `x` and the outcome is `o`. */
  function OutcomeOcc<T(==)>(r: seq<Outcome>, g: seq<T>, x: T, o: Outcome): nat
    requires |r| == |g|
  {
    if |g| == 0 then 0
    else (if g[0] == x && r[0] == o then 1 else 0) + OutcomeOcc(r[1..], g[1..], x, o)
  }

  /** Positions where the guess holds `x` and the outcome is Hit or Present. */
  function MarkedOcc<T(==)>(r: seq<Outcome>, g: seq<T>, x: T): nat
    requires |r| == |g|
  {
    if |g| == 0 then 0
    else (if g[0] == x && r[0] != Miss then 1 else 0) + MarkedOcc(r[1..], g[1..], x)
  }

  /** Pass one counts, for every letter, exactly its unmatched copies in the
      answer among the positions it has seen. */
  lemma {:induction false} UnmatchedCountsAnswerLeft<T>(g: seq<T>, a: seq<T>, k: nat, x: T)
    requires |g| == |a| && k <= |g|
    ensures Get(Unmatched(g, a, k), x) == AnsLeft(g[..k], a[..k], x)
  {
    if k > 0 {
      UnmatchedCountsAnswerLeft(g, a, k - 1, x);
      AnsLeftSnoc(g[..k], a[..k], x);
      assert g[..k][..k - 1] == g[..k - 1] && a[..k][..k - 1] == a[..k - 1];
    }
  }

  lemma {:induction false} AnsLeftSnoc<T>(g: seq<T>, a: seq<T>, x: T)
    requires |g| == |a| > 0
    ensures AnsLeft(g, a, x) ==
      AnsLeft(g[..|g| - 1], a[..|a| - 1], x) + (if g[|g| - 1] != a[|a| - 1] && a[|a| - 1] == x then 1 else 0)
    decreases |g|
  {
    var k := |g| - 1;
    if k > 0 {
      AnsLeftSnoc(g[1..], a[1..], x);
      assert g[1..][..k - 1] == g[..k][1..];
      assert a[1..][..k - 1] == a[..k][1..];
    }
  }

  /** Pass two spends the counts on the leftmost non-Hit copies: the Presents
      for `x` from position `i` on number the smaller of the non-Hit copies of
      `x` still ahead in the guess and the count of `x` still unspent. */
  lemma {:induction false} MarkSpendsCounts<T>(g: seq<T>, a: seq<T>, i: nat, c: map<T, nat>, x: T)
    requires |g| == |a| && i <= |g|
    ensures OutcomeOcc(Mark(g, a, i, c), g[i..], x, Present) == Min(GuessLeft(g[i..], a[i..], x), Get(c, x))
    decreases |g| - i
  {
    if i < |g| {
      assert g[i..][0] == g[i] && a[i..][0] == a[i];
      assert g[i..][1..] == g[i + 1..] && a[i..][1..] == a[i + 1..];
      if g[i] == a[i] {
        MarkSpendsCounts(g, a, i + 1, c, x);
      } else if Get(c, g[i]) > 0 {
        MarkSpendsCounts(g, a, i + 1, c[g[i] := Get(c, g[i]) - 1], x);
      } else {
        MarkSpendsCounts(g, a, i + 1, c, x);
      }
    }
  }

  lemma {:induction false} OccSplits<T>(g: seq<T>, a: seq<T>, x: T)
    requires |g| == |a|
    ensures Occ(g, x) == HitOcc(g, a, x) + GuessLeft(g, a, x)
    ensures Occ(a, x) == HitOcc(g, a, x) + AnsLeft(g, a, x)
  {
    if |g| > 0 {
      OccSplits(g[1..], a[1..], x);
    }
  }

  lemma {:induction false} MarkedSplits<T>(r: seq<Outcome>, g: seq<T>, a: seq<T>, x: T)
    requires |r| == |g| == |a|
    requires forall j | 0 <= j < |g| :: r[j] == Hit <==> g[j] == a[j]
    ensures MarkedOcc(r, g, x) == HitOcc(g, a, x) + OutcomeOcc(r, g, x, Present)
  {
    if |g| > 0 {
      assert forall j | 0 <= j < |g| - 1 :: r[1..][j] == r[j + 1] && g[1..][j] == g[j + 1] && a[1..][j] == a[j + 1];
      MarkedSplits(r[1..], g[1..], a[1..], x);
    }
  }

  /** For every letter, Hits plus Presents on that letter in the guess equal
      the smaller of its count in the guess and its count in the answer. */
  lemma ScoreLetterBudget<T>(g: seq<T>, a: seq<T>, x: T)
    requires |g| == |a|
    ensures MarkedOcc(Score(g, a), g, x) == Min(Occ(g, x), Occ(a, x))
  {
    var r := Score(g, a);
    MarkSpendsCounts(g, a, 0, Unmatched(g, a, |g|), x);
    assert g[0..] == g && a[0..] == a;
    assert g[..|g|] == g && a[..|a|] == a;
    UnmatchedCountsAnswerLeft(g, a, |g|, x);
    MarkedSplits(r, g, a, x);
    OccSplits(g, a, x);
  }

  /** A letter is Present no more often than it has unmatched copies in the
      answer, and is Present on exactly that many non-Hit copies when the
      guess has enough of them; the extra copies are Miss. */
  lemma ScorePresentBudget<T>(g: seq<T>, a: seq<T>, x: T)
    requires |g| == |a|
    ensures OutcomeOcc(Score(g, a), g, x, Present) == Min(GuessLeft(g, a, x), AnsLeft(g, a, x))
  {
    MarkSpendsCounts(g, a, 0, Unmatched(g, a, |g|), x);
    assert g[0..] == g && a[0..] == a;
    assert g[..|g|] == g && a[..|a|] == a;
    UnmatchedCountsAnswerLeft(g, a, |g|, x);
  }

  lemma {:induction false} GuessLeftSnoc<T>(g: seq<T>, a: seq<T>, x: T)
    requires |g| == |a| > 0
    ensures GuessLeft(g, a, x) ==
      GuessLeft(g[..|g| - 1], a[..|a| - 1], x) + (if g[|g| - 1] != a[|a| - 1] && g[|g| - 1] == x then 1 else 0)
    decreases |g|
  {
    var k := |g| - 1;
    if k > 0 {
      GuessLeftSnoc(g[1..], a[1..], x);
      assert g[1..][..k - 1] == g[..k][1..];
      assert a[1..][..k - 1] == a[..k][1..];
    }
  }

  // ---------------------------------------------------------------------
  // A closed-form reference for the scorer

  /** `x - y`, or 0 when `y` is larger. */
  function Sub(x: nat, y: nat): nat {
    if x >= y then x - y else 0
  }

  /** The reference rule at one position: Hit when the letters agree;
      otherwise Present exactly when fewer non-Hit copies of the letter come
      before this position in the guess than the answer has unmatched copies
      of it, and Miss otherwise. */
  function ReferenceAt<T(==)>(g: seq<T>, a: seq<T>, i: nat): Outcome
    requires |g| == |a| && i < |g|
  {
    if g[i] == a[i] then Hit
    else if GuessLeft(g[..i], a[..i], g[i]) < AnsLeft(g, a, g[i]) then Present
    else Miss
  }

  function Reference<T(==)>(g: seq<T>, a: seq<T>): (r: seq<Outcome>)
    requires |g| == |a|
    ensures |r| == |g|
  {
    seq(|g|, i requires 0 <= i < |g| => ReferenceAt(g, a, i))
  }

  /** The count invariant pass two keeps: every letter's count is its
      unmatched copies in the answer less the non-Hit copies of it before
      position `i` in the guess. */
  ghost predicate CountsAt<T(!new)>(g: seq<T>, a: seq<T>, i: nat, c: map<T, nat>)
    requires |g| == |a| && i <= |g|
  {
    forall x :: Get(c, x) == Sub(AnsLeft(g, a, x), GuessLeft(g[..i], a[..i], x))
  }

  /** One step of pass two keeps the count invariant and marks the
      reference outcome. */
  lemma CountsStep<T(!new)>(g: seq<T>, a: seq<T>, i: nat, c: map<T, nat>)
    requires |g| == |a| && i < |g| && CountsAt(g, a, i, c)
    ensures ReferenceAt(g, a, i) == (if g[i] == a[i] then Hit else if Get(c, g[i]) > 0 then Present else Miss)
    ensures CountsAt(g, a, i + 1, if g[i] != a[i] && Get(c, g[i]) > 0 then c[g[i] := Get(c, g[i]) - 1] else c)
  {
    assert g[..i + 1][..i] == g[..i] && a[..i + 1][..i] == a[..i];
    forall x
      ensures GuessLeft(g[..i + 1], a[..i + 1], x)
           == GuessLeft(g[..i], a[..i], x) + (if g[i] != a[i] && g[i] == x then 1 else 0)
    {
      GuessLeftSnoc(g[..i + 1], a[..i + 1], x);
    }
  }

  /** From position `i`, under the count invariant, pass two produces the
      reference outcomes. */
  lemma {:induction false} MarkMatchesReference<T(!new)>(g: seq<T>, a: seq<T>, i: nat, c: map<T, nat>)
    requires |g| == |a| && i <= |g| && CountsAt(g, a, i, c)
    ensures Mark(g, a, i, c) == Reference(g, a)[i..]
    decreases |g| - i
  {
    if i < |g| {
      CountsStep(g, a, i, c);
      var c' := if g[i] != a[i] && Get(c, g[i]) > 0 then c[g[i] := Get(c, g[i]) - 1] else c;
      MarkMatchesReference(g, a, i + 1, c');
      assert Mark(g, a, i, c) == [ReferenceAt(g, a, i)] + Mark(g, a, i + 1, c');
      assert Reference(g, a)[i..] == [ReferenceAt(g, a, i)] + Reference(g, a)[i + 1..];
    }
  }

  /** The two passes compute the reference rule. */
  lemma ScoreMatchesReference<T(!new)>(g: seq<T>, a: seq<T>)
    requires |g| == |a|
    ensures Score(g, a) == Reference(g, a)
  {
    assert g[..|g|] == g && a[..|a|] == a;
    forall x ensures Get(Unmatched(g, a, |g|), x) == Sub(AnsLeft(g, a, x), GuessLeft(g[..0], a[..0], x)) {
      UnmatchedCountsAnswerLeft(g, a, |g|, x);
    }
    assert CountsAt(g, a, 0, Unmatched(g, a, |g|));
    MarkMatchesReference(g, a, 0, Unmatched(g, a, |g|));
  }

  /** A letter the answer lacks has no unmatched copies in it. */
  lemma {:induction false} AnsLeftAbsent<T>(g: seq<T>, a: seq<T>, x: T)
    requires |g| == |a| && x !in a
    ensures AnsLeft(g, a, x) == 0
  {
    if |g| > 0 {
      assert x !in a[1..] by {
        forall j | 0 <= j < |a| - 1 ensures a[1..][j] != x {
          assert a[1..][j] == a[j + 1];
        }
      }
      AnsLeftAbsent(g[1..], a[1..], x);
    }
  }

  /** A guess letter the answer lacks is a Miss. */
  lemma AbsentLetterMisses<T>(g: seq<T>, a: seq<T>, i: nat)
    requires |g| == |a| && i < |g| && g[i] !in a
    ensures ReferenceAt(g, a, i) == Miss
  {
    AnsLeftAbsent(g, a, g[i]);
  }

  /** A guess that shares no letter with the answer misses everywhere. */
  lemma NoSharedLetterAllMiss<T(!new)>(g: seq<T>, a: seq<T>)
    requires |g| == |a|
    requires forall i | 0 <= i < |g| :: g[i] !in a
    ensures forall i | 0 <= i < |g| :: Score(g, a)[i] == Miss
  {
    ScoreMatchesReference(g, a);
    forall i | 0 <= i < |g| ensures ReferenceAt(g, a, i) == Miss {
      AnsLeftAbsent(g, a, g[i]);
    }
  }

  // ---------------------------------------------------------------------
  // From slots back to the words themselves

  /** Pass one on the slots of two full-length words counts what it counts
      on the words themselves. */
  lemma {:induction false} UnmatchedOnLetters(g: string, a: string, sg: seq<Slot>, sa: seq<Slot>, k: nat)
    requires |g| == |a| == |sg| == |sa| && k <= |g|
    requires forall i | 0 <= i < |g| :: sg[i] == Some(g[i]) && sa[i] == Some(a[i])
    ensures forall x :: Get(Unmatched(sg, sa, k), Some(x)) == Get(Unmatched(g, a, k), x)
  {
    if k > 0 {
      UnmatchedOnLetters(g, a, sg, sa, k - 1);
    }
  }

  /** Pass two on the slots of two full-length words marks what it marks on
      the words themselves, as long as the counts agree letter by letter. */
  lemma {:induction false} MarkOnLetters(g: string, a: string, sg: seq<Slot>, sa: seq<Slot>, i: nat,
                                         c: map<char, nat>, sc: map<Slot, nat>)
    requires |g| == |a| == |sg| == |sa| && i <= |g|
    requires forall j | 0 <= j < |g| :: sg[j] == Some(g[j]) && sa[j] == Some(a[j])
    requires forall x :: Get(sc, Some(x)) == Get(c, x)
    ensures Mark(sg, sa, i, sc) == Mark(g, a, i, c)
    decreases |g| - i
  {
    if i < |g| {
      if g[i] == a[i] {
        MarkOnLetters(g, a, sg, sa, i + 1, c, sc);
      } else if Get(c, g[i]) > 0 {
        var c' := c[g[i] := Get(c, g[i]) - 1];
        var sc' := sc[sg[i] := Get(sc, sg[i]) - 1];
        assert forall x :: Get(sc', Some(x)) == Get(c', x);
        MarkOnLetters(g, a, sg, sa, i + 1, c', sc');
      } else {
        MarkOnLetters(g, a, sg, sa, i + 1, c, sc);
      }
    }
  }

  /** For a guess and an answer of the game's length, `calculateResult` is
      the scoring rule applied to the two words. */
  lemma CalculateResultOnWords(guess: string, answer: string, wordLength: nat)
    requires |guess| == wordLength && |answer| == wordLength
    ensures CalculateResult(guess, answer, wordLength) == Score(guess, answer)
  {
    var sg := Slots(guess, wordLength);
    var sa := Slots(answer, wordLength);
    UnmatchedOnLetters(guess, answer, sg, sa, wordLength);
    MarkOnLetters(guess, answer, sg, sa, 0, Unmatched(guess, answer, wordLength), Unmatched(sg, sa, wordLength));
  }

  /** The per-letter budget for words of the game's length: for every
      letter, its Hit and Present marks in the guess together equal the
      smaller of its count in the guess and its count in the answer. */
  lemma LetterBudget(guess: string, answer: string, wordLength: nat, x: char)
    requires |guess| == wordLength && |answer| == wordLength
    ensures MarkedOcc(CalculateResult(guess, answer, wordLength), guess, x) == Min(Occ(guess, x), Occ(answer, x))
  {
    CalculateResultOnWords(guess, answer, wordLength);
    ScoreLetterBudget(guess, answer, x);
  }

  /** The outcome is all Hit exactly when the guess is the answer. */
  lemma AllHitIffSameWord(guess: string, answer: string, wordLength: nat)
    requires |guess| == wordLength && |answer| == wordLength
    ensures AllHit(CalculateResult(guess, answer, wordLength)) <==> guess == answer
  {
  }
}
