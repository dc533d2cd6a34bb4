/** Absurdle's candidate elimination (`getRemainingCandidates` and the
    helpers it calls in `server/src/game/wordle/absurdleGame.ts`). */
module Candidates {
  import opened Wrappers
  import opened Seqs
  import opened Outcomes
  import opened Scorer
  import opened WordleUtil
  import opened AbstractGame

  /** `AbsurdleCandidateResult`: a candidate answer with the outcome the
      guess would get against it and that outcome's tallies. */
  datatype CandidateResult = CandidateResult(candidate: string, result: seq<Outcome>, numberOfHit: nat, numberOfPresent: nat)

  /** Which tally a grouping uses: `groupByHit` or `groupByPresent`. */
  datatype GroupKey = ByHit | ByPresent

  function Key(c: CandidateResult, key: GroupKey): nat {
    match key
    case ByHit => c.numberOfHit
    case ByPresent => c.numberOfPresent
  }

  /** The per-candidate record `groupByHit` builds. */
  function Evaluate(guess: string, candidate: string, wordLength: nat): (c: CandidateResult)
    ensures c.candidate == candidate && |c.result| == wordLength
    ensures c.result == CalculateResult(guess, candidate, wordLength)
    ensures c.numberOfHit == Occ(c.result, Hit) && c.numberOfPresent == Occ(c.result, Present)
  {
    var result := CalculateResult(guess, candidate, wordLength);
    var t := GetNumberOfHitAndPresent(result);
    CandidateResult(candidate, result, t.hit, t.present)
  }

  function EvaluateAll(guess: string, cands: seq<string>, wordLength: nat): (es: seq<CandidateResult>)
    ensures |es| == |cands|
    ensures forall i | 0 <= i < |cands| :: es[i] == Evaluate(guess, cands[i], wordLength)
  {
    seq(|cands|, i requires 0 <= i < |cands| => Evaluate(guess, cands[i], wordLength))
  }

  /** `remainingCandidates.map((c) => c.candidate)`. */
  function Names(rs: seq<CandidateResult>): (ns: seq<string>)
    ensures |ns| == |rs|
    ensures forall i | 0 <= i < |rs| :: ns[i] == rs[i].candidate
  {
    seq(|rs|, i requires 0 <= i < |rs| => rs[i].candidate)
  }

  /** Reference definition of one group: the records with tally `k`, in
      their original order. */
  function Bucket(es: seq<CandidateResult>, key: GroupKey, k: nat): seq<CandidateResult> {
    if |es| == 0 then []
    else (if Key(es[0], key) == k then [es[0]] else []) + Bucket(es[1..], key, k)
  }

  /** A record is in the bucket exactly when it is one of the records and
      has tally `k`. */
  lemma {:induction false} BucketMembers(es: seq<CandidateResult>, key: GroupKey, k: nat)
    ensures forall c :: c in Bucket(es, key, k) <==> c in es && Key(c, key) == k
    ensures (forall c | c in es :: Key(c, key) != k) ==> Bucket(es, key, k) == []
  {
    if |es| > 0 {
      BucketMembers(es[1..], key, k);
      assert forall c | c in es :: c == es[0] || c in es[1..];
    }
  }

  /** Filtering a concatenation filters each part. */
  lemma {:induction false} BucketAppend(xs: seq<CandidateResult>, ys: seq<CandidateResult>, key: GroupKey, k: nat)
    ensures Bucket(xs + ys, key, k) == Bucket(xs, key, k) + Bucket(ys, key, k)
  {
    if |xs| > 0 {
      assert (xs + ys)[0] == xs[0];
      assert (xs + ys)[1..] == xs[1..] + ys;
      BucketAppend(xs[1..], ys, key, k);
    } else {
      assert xs + ys == ys;
    }
  }

  /** Filtering one more record at the end adds it at the end when it
      belongs to the group. */
  lemma BucketSnoc(es: seq<CandidateResult>, c: CandidateResult, key: GroupKey, k: nat)
    ensures Bucket(es + [c], key, k) == Bucket(es, key, k) + (if Key(c, key) == k then [c] else [])
  {
    BucketAppend(es, [c], key, k);
    assert [c][1..] == [];
  }

  function KeySet(es: seq<CandidateResult>, key: GroupKey): set<nat> {
    set c | c in es :: Key(c, key)
  }

  /** `groupByHit` / `groupByPresent`: a `forEach` that appends each record
      to the group of its tally, creating the group on first use. */
  function GroupBy(es: seq<CandidateResult>, key: GroupKey): map<nat, seq<CandidateResult>> {
    if |es| == 0 then map[]
    else
      var m := GroupBy(es[..|es| - 1], key);
      var c := es[|es| - 1];
      var k := Key(c, key);
      m[k := (if k in m then m[k] else []) + [c]]
  }

  /** The fold builds exactly one non-empty group per tally that occurs,
      and each group is that tally's bucket. */
  lemma {:induction false} GroupByBuckets(es: seq<CandidateResult>, key: GroupKey)
    ensures GroupBy(es, key).Keys == KeySet(es, key)
    ensures forall k | k in GroupBy(es, key) :: GroupBy(es, key)[k] == Bucket(es, key, k) && |GroupBy(es, key)[k]| > 0
  {
    if |es| > 0 {
      var es' := es[..|es| - 1];
      var c := es[|es| - 1];
      assert es == es' + [c];
      GroupByBuckets(es', key);
      var m := GroupBy(es', key);
      assert KeySet(es, key) == KeySet(es', key) + {Key(c, key)};
      forall k | k in GroupBy(es, key)
        ensures GroupBy(es, key)[k] == Bucket(es, key, k)
      {
        BucketSnoc(es', c, key, k);
        if k == Key(c, key) && k !in m {
          BucketEmpty(es', key, k);
        }
      }
    }
  }

  lemma {:induction false} BucketEmpty(es: seq<CandidateResult>, key: GroupKey, k: nat)
    requires k !in KeySet(es, key)
    ensures Bucket(es, key, k) == []
  {
    BucketMembers(es, key, k);
  }

  /** A run of records all with tally `k` is its own bucket. */
  lemma {:induction false} BucketAll(es: seq<CandidateResult>, key: GroupKey, k: nat)
    requires forall i | 0 <= i < |es| :: Key(es[i], key) == k
    ensures Bucket(es, key, k) == es
  {
    if |es| > 0 {
      assert forall i | 0 <= i < |es| - 1 :: es[1..][i] == es[i + 1];
      BucketAll(es[1..], key, k);
    }
  }

  /** A run of records none with tally `k` contributes nothing. */
  lemma {:induction false} BucketNone(es: seq<CandidateResult>, key: GroupKey, k: nat)
    requires forall i | 0 <= i < |es| :: Key(es[i], key) != k
    ensures Bucket(es, key, k) == []
  {
    BucketMembers(es, key, k);
  }

  /** A bucket keeps its records in order. */
  lemma {:induction false} BucketSubseq(es: seq<CandidateResult>, key: GroupKey, k: nat)
    ensures IsSubseq(Bucket(es, key, k), es)
  {
    if |es| > 0 {
      var es' := es[..|es| - 1];
      var c := es[|es| - 1];
      assert es == es' + [c];
      BucketSubseq(es', key, k);
      BucketSnoc(es', c, key, k);
      var b := Bucket(es, key, k);
      if Key(c, key) == k {
        assert b[|b| - 1] == c;
        assert b[..|b| - 1] == Bucket(es', key, k);
      } else {
        assert b == Bucket(es', key, k);
      }
    } else {
      SubseqEmpty(es);
    }
  }

  /** `Math.min(...groups.keys())` over a non-empty list of records. */
  function LowestKey(es: seq<CandidateResult>, key: GroupKey): (m: nat)
    requires |es| > 0
    ensures m in KeySet(es, key)
    ensures forall c | c in es :: m <= Key(c, key)
  {
    if |es| == 1 then Key(es[0], key)
    else
      var m := LowestKey(es[1..], key);
      assert forall c | c in es :: c == es[0] || c in es[1..];
      if Key(es[0], key) <= m then Key(es[0], key) else m
  }

  /** `groups.get(Math.min(...groups.keys()))?.candidates || []`: the group
      with the lowest tally, or nothing when there are no records (the
      minimum of no keys is `Infinity`, which no group has). */
  function LowestGroup(es: seq<CandidateResult>, key: GroupKey): (b: seq<CandidateResult>)
    ensures |es| == 0 ==> b == []
    ensures |es| > 0 ==> b == Bucket(es, key, LowestKey(es, key)) && |b| > 0
  {
    GroupByBuckets(es, key);
    if |es| == 0 then [] else GroupBy(es, key)[LowestKey(es, key)]
  }

  /** The error `pickRandomCandidateResult` throws on an empty list. */
  datatype PickError = NoCandidatesAvailable

  /** `pickRandomCandidateResult` with the draw `u` standing for `Math.random()`. */
  function PickRandomCandidateResult(rs: seq<CandidateResult>, u: real): (r: Result<CandidateResult, PickError>)
    requires 0.0 <= u < 1.0
    ensures r.Failure? <==> |rs| == 0
    ensures r.Success? ==> r.value in rs
  {
    if |rs| == 0 then Failure(NoCandidatesAvailable) else Success(rs[RandomIndex(u, |rs|)])
  }

  /** The selection steps of `getRemainingCandidates` once every candidate
      has been evaluated; `u` stands for the draw used when several
      candidates tie on both tallies. */
  function Eliminate(es: seq<CandidateResult>, u: real): seq<CandidateResult>
    requires 0.0 <= u < 1.0
  {
    var best := LowestGroup(es, ByHit);
    if |best| == 1 then best
    else
      var noPresent := Bucket(best, ByPresent, 0);
      if |noPresent| > 0 then noPresent
      else
        var bestPresent := LowestGroup(best, ByPresent);
        if |bestPresent| > 1 then [PickRandomCandidateResult(bestPresent, u).value] else bestPresent
  }

  /** `getRemainingCandidates`. */
  function GetRemainingCandidates(guess: string, cands: seq<string>, wordLength: nat, u: real): seq<CandidateResult>
    requires 0.0 <= u < 1.0
  {
    Eliminate(EvaluateAll(guess, cands, wordLength), u)
  }

  /** `r` has no more Hits than any evaluated candidate. */
  predicate MinimalHits(r: CandidateResult, es: seq<CandidateResult>) {
    forall c | c in es :: r.numberOfHit <= c.numberOfHit
  }

  /** Survivors are drawn, in order, from the evaluated candidates. */
  lemma EliminateSubseq(es: seq<CandidateResult>, u: real)
    requires 0.0 <= u < 1.0
    ensures IsSubseq(Eliminate(es, u), es)
  {
    var best := LowestGroup(es, ByHit);
    if |es| > 0 {
      BucketSubseq(es, ByHit, LowestKey(es, ByHit));
    } else {
      SubseqEmpty(es);
    }
    if |best| != 1 {
      var noPresent := Bucket(best, ByPresent, 0);
      if |noPresent| > 0 {
        BucketSubseq(best, ByPresent, 0);
        SubseqTrans(noPresent, best, es);
      } else {
        var bestPresent := LowestGroup(best, ByPresent);
        if |best| > 0 {
          BucketSubseq(best, ByPresent, LowestKey(best, ByPresent));
        } else {
          SubseqEmpty(best);
        }
        SubseqTrans(bestPresent, best, es);
        if |bestPresent| > 1 {
          var p := PickRandomCandidateResult(bestPresent, u).value;
          SingletonSubseq(p, bestPresent);
          SubseqTrans([p], bestPresent, es);
        }
      }
    }
  }

  /** Every survivor is in the fewest-Hit group, and all survivors share
      their Present tally too. */
  lemma EliminateShareTallies(es: seq<CandidateResult>, u: real)
    requires 0.0 <= u < 1.0
    ensures forall r | r in Eliminate(es, u) :: r in LowestGroup(es, ByHit)
    ensures forall r, s | r in Eliminate(es, u) && s in Eliminate(es, u) :: r.numberOfPresent == s.numberOfPresent
  {
    var best := LowestGroup(es, ByHit);
    if |best| != 1 {
      BucketMembers(best, ByPresent, 0);
      if |Bucket(best, ByPresent, 0)| == 0 {
        var bestPresent := LowestGroup(best, ByPresent);
        if |best| > 0 {
          BucketMembers(best, ByPresent, LowestKey(best, ByPresent));
        }
        if |bestPresent| > 1 {
          assert PickRandomCandidateResult(bestPresent, u).value in bestPresent;
        }
      }
    }
  }

  /** What the elimination promises: survivors come from the candidates in
      their order, carry the outcome the guess gets against them, and have
      the fewest Hits of all; there is at least one exactly when there was
      a candidate; and several survivors always share both tallies. */
  lemma RemainingCandidatesSpec(guess: string, cands: seq<string>, wordLength: nat, u: real)
    requires 0.0 <= u < 1.0
    ensures var es := EvaluateAll(guess, cands, wordLength);
            var rs := GetRemainingCandidates(guess, cands, wordLength, u);
            && IsSubseq(Names(rs), cands)
            && (|cands| > 0 <==> |rs| > 0)
            && (forall r | r in rs :: r == Evaluate(guess, r.candidate, wordLength) && r.candidate in cands && MinimalHits(r, es))
            && (forall r, s | r in rs && s in rs :: r.numberOfHit == s.numberOfHit && r.numberOfPresent == s.numberOfPresent)
  {
    var es := EvaluateAll(guess, cands, wordLength);
    var rs := Eliminate(es, u);
    assert Names(es) == cands;
    assert IsSubseq(rs, es) by {
      EliminateSubseq(es, u);
    }
    assert IsSubseq(Names(rs), cands) by {
      NamesOfSubseq(rs, es);
    }
    EliminateMinimal(es, u);
    SubseqMembers(rs, es);
    forall r | r in rs
      ensures r == Evaluate(guess, r.candidate, wordLength) && r.candidate in cands
    {
      var i :| 0 <= i < |es| && es[i] == r;
      assert cands[i] == r.candidate;
    }
  }

  /** Survivors have the fewest Hits and share both tallies, and some
      record survives exactly when there was one to begin with. */
  lemma EliminateMinimal(es: seq<CandidateResult>, u: real)
    requires 0.0 <= u < 1.0
    ensures |es| > 0 <==> |Eliminate(es, u)| > 0
    ensures forall r | r in Eliminate(es, u) :: MinimalHits(r, es)
    ensures forall r, s | r in Eliminate(es, u) && s in Eliminate(es, u) ::
              r.numberOfHit == s.numberOfHit && r.numberOfPresent == s.numberOfPresent
  {
    EliminateShareTallies(es, u);
    if |es| > 0 {
      BucketMembers(es, ByHit, LowestKey(es, ByHit));
    }
  }

  /** When the fewest-Hit group has several members and some of them show no
      Present letter, exactly those survive. */
  lemma NoPresentPreferred(es: seq<CandidateResult>, u: real)
    requires 0.0 <= u < 1.0
    requires |LowestGroup(es, ByHit)| > 1
    requires exists c | c in LowestGroup(es, ByHit) :: c.numberOfPresent == 0
    ensures Eliminate(es, u) == Bucket(LowestGroup(es, ByHit), ByPresent, 0)
  {
    BucketMembers(LowestGroup(es, ByHit), ByPresent, 0);
  }

  /** Otherwise at most one record survives, and it has the fewest Present
      letters among the fewest-Hit group. */
  lemma EliminateAtMostOne(es: seq<CandidateResult>, u: real)
    requires 0.0 <= u < 1.0
    requires !(|LowestGroup(es, ByHit)| > 1 && exists c | c in LowestGroup(es, ByHit) :: c.numberOfPresent == 0)
    ensures |Eliminate(es, u)| <= 1
    ensures forall r | r in Eliminate(es, u) ::
              r in LowestGroup(es, ByHit) && forall c | c in LowestGroup(es, ByHit) :: r.numberOfPresent <= c.numberOfPresent
  {
    var best := LowestGroup(es, ByHit);
    if |best| > 1 {
      BucketEmpty(best, ByPresent, 0);
      FewestPresentPick(best, u);
      var bp := LowestGroup(best, ByPresent);
      assert Eliminate(es, u) == if |bp| > 1 then [PickRandomCandidateResult(bp, u).value] else bp;
    } else {
      assert Eliminate(es, u) == best;
    }
  }

  /** With no zero-Present record, the lowest-Present group yields at most
      one record, of the fewest Present letters. */
  lemma FewestPresentPick(best: seq<CandidateResult>, u: real)
    requires 0.0 <= u < 1.0
    ensures var bp := LowestGroup(best, ByPresent);
            var r := if |bp| > 1 then [PickRandomCandidateResult(bp, u).value] else bp;
            |r| <= 1 && forall x | x in r :: x in best && forall c | c in best :: x.numberOfPresent <= c.numberOfPresent
  {
    var bp := LowestGroup(best, ByPresent);
    if |best| > 0 {
      BucketMembers(best, ByPresent, LowestKey(best, ByPresent));
    }
    if |bp| > 1 {
      assert PickRandomCandidateResult(bp, u).value in bp;
    }
  }

  /** Projecting the names keeps the subsequence relation. */
  lemma {:induction false} NamesOfSubseq(xs: seq<CandidateResult>, ys: seq<CandidateResult>)
    requires IsSubseq(xs, ys)
    ensures IsSubseq(Names(xs), Names(ys))
    decreases |ys|
  {
    if |ys| > 0 {
      var ys' := ys[..|ys| - 1];
      assert Names(ys)[..|ys| - 1] == Names(ys');
      if |xs| > 0 && xs[|xs| - 1] == ys[|ys| - 1] && IsSubseq(xs[..|xs| - 1], ys') {
        NamesOfSubseq(xs[..|xs| - 1], ys');
        assert Names(xs)[..|xs| - 1] == Names(xs[..|xs| - 1]);
      } else {
        NamesOfSubseq(xs, ys');
      }
    }
  }
}
