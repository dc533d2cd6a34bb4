/** `WordleUtil.getNumberOfHitAndPresent`: the Hit and Present tallies of
    one outcome sequence, as the adversary's buckets use them. */
module WordleUtil {
  import opened Seqs
  import opened Outcomes

  datatype HitAndPresent = HitAndPresent(hit: nat, present: nat)

  /** The `reduce` from `{hit: 0, present: 0}`, left to right; Miss entries
      leave the tally alone. */
  function GetNumberOfHitAndPresent(rs: seq<Outcome>): (t: HitAndPresent)
    ensures t.hit == Occ(rs, Hit) && t.present == Occ(rs, Present)
    decreases |rs|
  {
    if |rs| == 0 then HitAndPresent(0, 0)
    else
      var k := |rs| - 1;
      var acc := GetNumberOfHitAndPresent(rs[..k]);
      OccLast(rs, Hit);
      OccLast(rs, Present);
      if rs[k] == Hit then acc.(hit := acc.hit + 1)
      else if rs[k] == Present then acc.(present := acc.present + 1)
      else acc
  }

  /** Every outcome is a Hit, a Present or a Miss, so the two tallies and
      the Misses add up to the length. */
  lemma {:induction false} TallyCoversEveryOutcome(rs: seq<Outcome>)
    ensures GetNumberOfHitAndPresent(rs).hit + GetNumberOfHitAndPresent(rs).present + Occ(rs, Miss) == |rs|
  {
    OutcomeCounts(rs);
  }

  lemma {:induction false} OutcomeCounts(rs: seq<Outcome>)
    ensures Occ(rs, Hit) + Occ(rs, Present) + Occ(rs, Miss) == |rs|
  {
    if |rs| > 0 {
      OutcomeCounts(rs[1..]);
      assert Occ(rs, Hit) == (if rs[0] == Hit then 1 else 0) + Occ(rs[1..], Hit);
      assert Occ(rs, Present) == (if rs[0] == Present then 1 else 0) + Occ(rs[1..], Present);
      assert Occ(rs, Miss) == (if rs[0] == Miss then 1 else 0) + Occ(rs[1..], Miss);
    }
  }

  /** The tally of an outcome sequence is all Hit exactly when the Hits
      number as many as the outcomes. */
  lemma AllHitIffFullHitTally(rs: seq<Outcome>)
    ensures AllHit(rs) <==> GetNumberOfHitAndPresent(rs).hit == |rs|
  {
    AllHitIffAllCounted(rs);
  }
}
