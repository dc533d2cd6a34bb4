/** Counting and subsequence facts shared by the scorer, the ledgers and the
    candidate elimination. */
module Seqs {

  /** Number of occurrences of `x` in `s`. */
  function Occ<T(==)>(s: seq<T>, x: T): (n: nat)
    ensures n <= |s|
    ensures n == 0 <==> x !in s
  {
    if |s| == 0 then 0 else (if s[0] == x then 1 else 0) + Occ(s[1..], x)
  }

  /** Appending one element adds one occurrence exactly when it is `x`. */
  lemma {:induction false} OccSnoc<T>(s: seq<T>, y: T, x: T)
    ensures Occ(s + [y], x) == Occ(s, x) + (if y == x then 1 else 0)
  {
    if |s| == 0 {
      assert s + [y] == [y];
      assert [y][1..] == [];
    } else {
      assert (s + [y])[0] == s[0];
      assert (s + [y])[1..] == s[1..] + [y];
      OccSnoc(s[1..], y, x);
    }
  }

  /** The count of a non-empty sequence, split before its last element. */
  lemma OccLast<T>(s: seq<T>, x: T)
    requires |s| > 0
    ensures Occ(s, x) == Occ(s[..|s| - 1], x) + (if s[|s| - 1] == x then 1 else 0)
  {
    assert s == s[..|s| - 1] + [s[|s| - 1]];
    OccSnoc(s[..|s| - 1], s[|s| - 1], x);
  }

  /** `xs` is `ys` with some elements left out, the rest in their original order. */
  predicate IsSubseq<T(==)>(xs: seq<T>, ys: seq<T>)
    decreases |ys|
  {
    if |ys| == 0 then |xs| == 0
    else
      (|xs| > 0 && xs[|xs| - 1] == ys[|ys| - 1] && IsSubseq(xs[..|xs| - 1], ys[..|ys| - 1]))
      || IsSubseq(xs, ys[..|ys| - 1])
  }

  lemma {:induction false} SubseqEmpty<T>(ys: seq<T>)
    ensures IsSubseq([], ys)
    decreases |ys|
  {
    if |ys| > 0 {
      SubseqEmpty(ys[..|ys| - 1]);
    }
  }

  lemma {:induction false} SubseqRefl<T>(ys: seq<T>)
    ensures IsSubseq(ys, ys)
    decreases |ys|
  {
    if |ys| > 0 {
      SubseqRefl(ys[..|ys| - 1]);
    }
  }

  /** A subsequence is no longer than its source and holds only its elements. */
  lemma {:induction false} SubseqMembers<T>(xs: seq<T>, ys: seq<T>)
    requires IsSubseq(xs, ys)
    ensures |xs| <= |ys|
    ensures forall x | x in xs :: x in ys
    decreases |ys|
  {
    if |ys| > 0 {
      var ys' := ys[..|ys| - 1];
      if |xs| > 0 && xs[|xs| - 1] == ys[|ys| - 1] && IsSubseq(xs[..|xs| - 1], ys') {
        SubseqMembers(xs[..|xs| - 1], ys');
        assert xs == xs[..|xs| - 1] + [xs[|xs| - 1]];
        assert ys == ys' + [ys[|ys| - 1]];
      } else {
        SubseqMembers(xs, ys');
        assert ys == ys' + [ys[|ys| - 1]];
      }
    }
  }

  lemma {:induction false} SubseqTrans<T>(xs: seq<T>, ys: seq<T>, zs: seq<T>)
    requires IsSubseq(xs, ys) && IsSubseq(ys, zs)
    ensures IsSubseq(xs, zs)
    decreases |zs|
  {
    if |zs| == 0 {
      SubseqMembers(ys, zs);
      SubseqMembers(xs, ys);
    } else {
      var zs' := zs[..|zs| - 1];
      if |ys| > 0 && ys[|ys| - 1] == zs[|zs| - 1] && IsSubseq(ys[..|ys| - 1], zs') {
        var ys' := ys[..|ys| - 1];
        if |xs| > 0 && xs[|xs| - 1] == ys[|ys| - 1] && IsSubseq(xs[..|xs| - 1], ys') {
          SubseqTrans(xs[..|xs| - 1], ys', zs');
        } else {
          SubseqTrans(xs, ys', zs');
        }
      } else {
        SubseqTrans(xs, ys, zs');
      }
    }
  }

  /** Any single element of `ys`, alone, is a subsequence of `ys`. */
  lemma {:induction false} SingletonSubseq<T>(x: T, ys: seq<T>)
    requires x in ys
    ensures IsSubseq([x], ys)
    decreases |ys|
  {
    var ys' := ys[..|ys| - 1];
    if ys[|ys| - 1] == x {
      SubseqEmpty(ys');
      assert [x][..0] == [];
    } else {
      assert ys == ys' + [ys[|ys| - 1]];
      SingletonSubseq(x, ys');
    }
  }
}
