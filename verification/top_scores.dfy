/** The top-N listing of the scoreboard. `getTopScores` pushes every entry onto
    a min-heap and pops the heap's least entry whenever it holds more than
    `limit`, then sorts what is left for display. Here the heap is modelled
    by what it guarantees: the entry popped is a least one under the heap's
    comparator (the first such entry in push order, where several tie on
    every field). */
module TopScores {
  import opened NameOrder
  import opened Scoreboard

  /** The listing length used when the caller gives none. */
  const DefaultLimit := 10

  /** Display order: `a` may be listed before `b` — more points first, then
      higher accuracy, then names in ascending order. */
  predicate ShownBefore(a: PlayerScore, b: PlayerScore)
  {
    || a.score > b.score
    || (a.score == b.score && (a.accuracy > b.accuracy || (a.accuracy == b.accuracy && NameLe(a.name, b.name))))
  }

  /** The heap's comparator: `a` may leave the heap before `b` — fewer points
      first, then lower accuracy, then names in ascending order. */
  predicate PopsBefore(a: PlayerScore, b: PlayerScore)
  {
    || a.score < b.score
    || (a.score == b.score && (a.accuracy < b.accuracy || (a.accuracy == b.accuracy && NameLe(a.name, b.name))))
  }

  /** `a` is at least as good as `b` on points, then accuracy. */
  predicate AtLeastAsGood(a: PlayerScore, b: PlayerScore)
  {
    a.score > b.score || (a.score == b.score && a.accuracy >= b.accuracy)
  }

  lemma ShownBeforeTotal(a: PlayerScore, b: PlayerScore)
    ensures ShownBefore(a, b) || ShownBefore(b, a)
  {
    NameLeTotal(a.name, b.name);
  }

  lemma ShownBeforeTransitive(a: PlayerScore, b: PlayerScore, c: PlayerScore)
    requires ShownBefore(a, b) && ShownBefore(b, c)
    ensures ShownBefore(a, c)
  {
    if a.score == b.score == c.score && a.accuracy == b.accuracy == c.accuracy {
      NameLeTransitive(a.name, b.name, c.name);
    }
  }

  lemma PopsBeforeTotal(a: PlayerScore, b: PlayerScore)
    ensures PopsBefore(a, b) || PopsBefore(b, a)
  {
    NameLeTotal(a.name, b.name);
  }

  lemma PopsBeforeTransitive(a: PlayerScore, b: PlayerScore, c: PlayerScore)
    requires PopsBefore(a, b) && PopsBefore(b, c)
    ensures PopsBefore(a, c)
  {
    if a.score == b.score == c.score && a.accuracy == b.accuracy == c.accuracy {
      NameLeTransitive(a.name, b.name, c.name);
    }
  }

  /** Leaving the heap no later than `b` means being no better than `b`. */
  lemma PopsBeforeIsNoBetter(a: PlayerScore, b: PlayerScore)
    requires PopsBefore(a, b)
    ensures AtLeastAsGood(b, a)
  {
  }

  // ---------------------------------------------------------------------
  // Sorting for display

  predicate SortedForDisplay(s: seq<PlayerScore>)
  {
    forall i, j | 0 <= i < j < |s| :: ShownBefore(s[i], s[j])
  }

  /** Puts `p` in front of the first entry it may be shown before. */
  function Insert(p: PlayerScore, s: seq<PlayerScore>): (r: seq<PlayerScore>)
    ensures multiset(r) == multiset(s) + multiset{p}
    decreases |s|
  {
    if |s| == 0 then [p]
    else if ShownBefore(p, s[0]) then [p] + s
    else
      assert s == [s[0]] + s[1..];
      [s[0]] + Insert(p, s[1..])
  }

  lemma {:induction false} InsertSorted(p: PlayerScore, s: seq<PlayerScore>)
    requires SortedForDisplay(s)
    ensures SortedForDisplay(Insert(p, s))
    decreases |s|
  {
    if |s| == 0 {
    } else if ShownBefore(p, s[0]) {
      var r := [p] + s;
      forall i, j | 0 <= i < j < |r|
        ensures ShownBefore(r[i], r[j])
      {
        if i == 0 && j > 1 {
          ShownBeforeTransitive(p, s[0], s[j - 1]);
        }
      }
    } else {
      ShownBeforeTotal(p, s[0]);
      InsertSorted(p, s[1..]);
      var t := Insert(p, s[1..]);
      var r := [s[0]] + t;
      forall i, j | 0 <= i < j < |r|
        ensures ShownBefore(r[i], r[j])
      {
        if i == 0 {
          var y := r[j];
          assert y in multiset(t);
          if y != p {
            assert y in multiset(s[1..]);
            var k :| 0 <= k < |s[1..]| && s[1..][k] == y;
            assert s[k + 1] == y;
          }
        }
      }
    }
  }

  /** The display sort: an insertion sort, so entries that tie on every
      compared field keep their order, as `Array.prototype.sort` does. */
  function SortForDisplay(s: seq<PlayerScore>): (r: seq<PlayerScore>)
    ensures multiset(r) == multiset(s)
    decreases |s|
  {
    if |s| == 0 then []
    else
      assert s == [s[0]] + s[1..];
      Insert(s[0], SortForDisplay(s[1..]))
  }

  /** The display sort sorts, and rearranges without adding or dropping. */
  lemma {:induction false} SortForDisplaySorts(s: seq<PlayerScore>)
    ensures SortedForDisplay(SortForDisplay(s))
    ensures multiset(SortForDisplay(s)) == multiset(s)
    ensures |SortForDisplay(s)| == |s|
    decreases |s|
  {
    if |s| > 0 {
      SortForDisplaySorts(s[1..]);
      InsertSorted(s[0], SortForDisplay(s[1..]));
    }
    assert |multiset(SortForDisplay(s))| == |multiset(s)|;
  }

  // ---------------------------------------------------------------------
  // The heap selection, as `getTopScores` performs it

  /** How many entries a listing of `limit` out of `n` holds: `getTopScores` pops
      whenever the heap holds more than `limit`, so a limit of zero or less
      lists nothing. */
  function Cap(limit: int, n: nat): nat
  {
    if limit <= 0 then 0 else if limit < n then limit else n
  }

  /** The heap's contents and, for the proofs, what it has popped. */
  datatype Selection = Selection(kept: seq<PlayerScore>, evicted: seq<PlayerScore>)

  /** The position of the first entry that may leave the heap before every
      other one. */
  function FirstLeast(k: seq<PlayerScore>): (m: nat)
    requires |k| > 0
    ensures m < |k|
    ensures forall j | 0 <= j < |k| :: PopsBefore(k[m], k[j])
    decreases |k|
  {
    if |k| == 1 then
      PopsBeforeTotal(k[0], k[0]);
      0
    else
      var m := FirstLeast(k[1..]);
      if PopsBefore(k[0], k[1..][m]) then
        assert forall j | 1 <= j < |k| :: PopsBefore(k[0], k[j]) by {
          forall j | 1 <= j < |k|
            ensures PopsBefore(k[0], k[j])
          {
            assert k[j] == k[1..][j - 1];
            PopsBeforeTransitive(k[0], k[1..][m], k[j]);
          }
        }
        PopsBeforeTotal(k[0], k[0]);
        0
      else
        PopsBeforeTotal(k[0], k[1..][m]);
        assert forall j | 1 <= j < |k| :: PopsBefore(k[1..][m], k[j]) by {
          forall j | 1 <= j < |k|
            ensures PopsBefore(k[1..][m], k[j])
          {
            assert k[j] == k[1..][j - 1];
          }
        }
        m + 1
  }

  function RemoveAt(s: seq<PlayerScore>, i: nat): (r: seq<PlayerScore>)
    requires i < |s|
    ensures |r| == |s| - 1
    ensures forall j | 0 <= j < |r| :: r[j] == (if j < i then s[j] else s[j + 1])
    ensures multiset(r) + multiset{s[i]} == multiset(s)
  {
    assert s == s[..i] + [s[i]] + s[i + 1..];
    s[..i] + s[i + 1..]
  }

  /** One `push`, followed by a `pop` when the heap then holds more than
      `limit` entries. */
  function Push(sel: Selection, p: PlayerScore, limit: int): Selection
  {
    var k := sel.kept + [p];
    if |k| > limit then
      var m := FirstLeast(k);
      Selection(RemoveAt(k, m), sel.evicted + [k[m]])
    else
      Selection(k, sel.evicted)
  }

  /** The loop over the board's entries, in insertion order. */
  function HeapSelect(entries: seq<PlayerScore>, limit: int): Selection
    decreases |entries|
  {
    if |entries| == 0 then Selection([], [])
    else Push(HeapSelect(entries[..|entries| - 1], limit), entries[|entries| - 1], limit)
  }

  /** What the heap keeps after seeing `entries`: together with what it
      popped, exactly those entries; `Cap(limit, |entries|)` of them; and
      nothing popped may leave after anything kept. */
  predicate Selected(sel: Selection, entries: seq<PlayerScore>, limit: int)
  {
    && multiset(sel.kept) + multiset(sel.evicted) == multiset(entries)
    && |sel.kept| == Cap(limit, |entries|)
    && forall i, j | 0 <= i < |sel.evicted| && 0 <= j < |sel.kept| :: PopsBefore(sel.evicted[i], sel.kept[j])
  }

  /** A push adds the pushed entry to what is kept or popped. */
  lemma PushMultiset(sel: Selection, p: PlayerScore, limit: int)
    ensures multiset(Push(sel, p, limit).kept) + multiset(Push(sel, p, limit).evicted)
      == multiset(sel.kept) + multiset(sel.evicted) + multiset{p}
  {
    var k := sel.kept + [p];
    assert multiset(k) == multiset(sel.kept) + multiset{p};
    if |k| > limit {
      var m := FirstLeast(k);
      assert Push(sel, p, limit) == Selection(RemoveAt(k, m), sel.evicted + [k[m]]);
      assert multiset(RemoveAt(k, m)) + multiset{k[m]} == multiset(k);
      assert multiset(sel.evicted + [k[m]]) == multiset(sel.evicted) + multiset{k[m]};
      calc {
        multiset(RemoveAt(k, m)) + multiset(sel.evicted + [k[m]]);
        (multiset(RemoveAt(k, m)) + multiset{k[m]}) + multiset(sel.evicted);
        (multiset(sel.kept) + multiset(sel.evicted)) + multiset{p};
      }
    }
  }

  /** The heap holds `limit` entries once it has popped any, and a push
      keeps it at `Cap(limit, n)`. */
  lemma PushSizes(sel: Selection, n: nat, p: PlayerScore, limit: int)
    requires |sel.kept| + |sel.evicted| == n
    requires |sel.kept| == Cap(limit, n)
    ensures |Push(sel, p, limit).kept| == Cap(limit, n + 1)
    ensures |sel.kept| + 1 <= limit ==> |sel.evicted| == 0
  {
  }

  /** A push keeps the heap's guarantee. */
  lemma PushSelects(sel: Selection, entries: seq<PlayerScore>, p: PlayerScore, limit: int)
    requires Selected(sel, entries, limit)
    ensures Selected(Push(sel, p, limit), entries + [p], limit)
  {
    var n := Push(sel, p, limit);
    assert multiset(entries + [p]) == multiset(entries) + multiset{p};
    PushMultiset(sel, p, limit);
    assert |sel.kept| + |sel.evicted| == |entries| by {
      assert |multiset(sel.kept)| + |multiset(sel.evicted)| == |multiset(entries)|;
    }
    PushSizes(sel, |entries|, p, limit);
    PushOrder(sel, entries, p, limit);
  }

  lemma PushOrder(sel: Selection, entries: seq<PlayerScore>, p: PlayerScore, limit: int)
    requires Selected(sel, entries, limit)
    ensures var n := Push(sel, p, limit);
      forall i, j | 0 <= i < |n.evicted| && 0 <= j < |n.kept| :: PopsBefore(n.evicted[i], n.kept[j])
  {
    assert |sel.kept| + |sel.evicted| == |entries| by {
      assert |multiset(sel.kept)| + |multiset(sel.evicted)| == |multiset(entries)|;
    }
    PushSizes(sel, |entries|, p, limit);
    var k := sel.kept + [p];
    if |k| > limit {
      var m := FirstLeast(k);
      var n := Push(sel, p, limit);
      forall i, j | 0 <= i < |n.evicted| && 0 <= j < |n.kept|
        ensures PopsBefore(n.evicted[i], n.kept[j])
      {
        var j' := if j < m then j else j + 1;
        assert n.kept[j] == k[j'];
        if i < |sel.evicted| {
          assert n.evicted[i] == sel.evicted[i];
          if j' == |sel.kept| {
            assert k[m] == sel.kept[m];
            PopsBeforeTransitive(sel.evicted[i], k[m], p);
          } else {
            assert k[j'] == sel.kept[j'];
          }
        }
      }
    }
  }

  /** `getTopScores` as written: heap selection, then the display sort. The
      listing holds `Cap(limit, n)` entries of the board, sorted for display,
      each at least as good on points and then accuracy as every entry left
      out. */
  function GetTopScoresAsWritten(b: Board, limit: int): (r: seq<PlayerScore>)
    ensures |r| == Cap(limit, |b.entries|)
    ensures SortedForDisplay(r)
    ensures multiset(r) <= multiset(b.entries)
    ensures forall p, q | p in r && q in b.entries && q !in r :: AtLeastAsGood(p, q)
  {
    var sel := HeapSelect(b.entries, limit);
    HeapSelectSelects(b.entries, limit);
    KeptAreBest(sel, b.entries, limit);
    SortForDisplay(sel.kept)
  }

  /** The heap loop keeps the best `limit` entries under its comparator. */
  lemma {:induction false} HeapSelectSelects(entries: seq<PlayerScore>, limit: int)
    ensures Selected(HeapSelect(entries, limit), entries, limit)
    decreases |entries|
  {
    if |entries| > 0 {
      var init := entries[..|entries| - 1];
      var last := entries[|entries| - 1];
      assert entries == init + [last];
      HeapSelectSelects(init, limit);
      PushSelects(HeapSelect(init, limit), init, last, limit);
    }
  }

  /** Whatever the heap keeps, sorted for display, is at least as good on
      points and then accuracy as whatever it popped. */
  lemma KeptAreBest(sel: Selection, entries: seq<PlayerScore>, limit: int)
    requires Selected(sel, entries, limit)
    ensures var r := SortForDisplay(sel.kept);
      && |r| == Cap(limit, |entries|)
      && SortedForDisplay(r)
      && multiset(r) <= multiset(entries)
      && forall p, q | p in r && q in entries && q !in r :: AtLeastAsGood(p, q)
  {
    SortForDisplaySorts(sel.kept);
    var r := SortForDisplay(sel.kept);
    assert |r| == |multiset(sel.kept)|;
    forall p, q | p in r && q in entries && q !in r
      ensures AtLeastAsGood(p, q)
    {
      assert p in multiset(sel.kept);
      assert q !in multiset(sel.kept);
      assert q in multiset(entries);
      assert q in multiset(sel.evicted);
      var i :| 0 <= i < |sel.evicted| && sel.evicted[i] == q;
      var j :| 0 <= j < |sel.kept| && sel.kept[j] == p;
      PopsBeforeIsNoBetter(q, p);
    }
  }

  // ---------------------------------------------------------------------
  // The listing as displayed order intends it

  /** `getTopScores`: the first `Cap(limit, n)` entries of the whole board in
      display order. The listing is drawn from the board, sorted for
      display, and each entry may be shown before every entry left out,
      ties on points and accuracy included. */
  function GetTopScores(b: Board, limit: int): (r: seq<PlayerScore>)
    ensures |r| == Cap(limit, |b.entries|)
    ensures SortedForDisplay(r)
    ensures multiset(r) <= multiset(b.entries)
    ensures forall p, q | p in r && q in b.entries && q !in r :: ShownBefore(p, q)
  {
    SortForDisplaySorts(b.entries);
    SortedPrefixLeads(b.entries, SortForDisplay(b.entries), Cap(limit, |b.entries|));
    SortForDisplay(b.entries)[..Cap(limit, |b.entries|)]
  }

  /** A prefix of a sorted arrangement of `entries` is sorted, is drawn from
      `entries`, and leads every entry it leaves out. */
  lemma SortedPrefixLeads(entries: seq<PlayerScore>, s: seq<PlayerScore>, c: nat)
    requires SortedForDisplay(s) && multiset(s) == multiset(entries) && c <= |s|
    ensures SortedForDisplay(s[..c])
    ensures multiset(s[..c]) <= multiset(entries)
    ensures forall p, q | p in s[..c] && q in entries && q !in s[..c] :: ShownBefore(p, q)
  {
    assert multiset(s[..c]) <= multiset(s) by {
      assert s == s[..c] + s[c..];
    }
    PrefixLeads(s, c);
    SameMembers(entries, s);
  }

  /** Sequences with the same multiset have the same members. */
  lemma SameMembers(a: seq<PlayerScore>, b: seq<PlayerScore>)
    requires multiset(a) == multiset(b)
    ensures forall q | q in a :: q in b
  {
    forall q | q in a
      ensures q in b
    {
      assert q in multiset(a);
    }
  }

  /** In a sorted sequence every entry of a prefix may be shown before every
      entry outside it. */
  lemma PrefixLeads(s: seq<PlayerScore>, c: nat)
    requires SortedForDisplay(s) && c <= |s|
    ensures forall p, q | p in s[..c] && q in s && q !in s[..c] :: ShownBefore(p, q)
  {
    forall p, q | p in s[..c] && q in s && q !in s[..c]
      ensures ShownBefore(p, q)
    {
      var j :| 0 <= j < |s| && s[j] == q;
      var i :| 0 <= i < c && s[..c][i] == p;
      assert s[i] == p;
      assert j >= c;
    }
  }

  /** When two players tie on points and accuracy across the cut, the
      heap in `getTopScores` pops the one whose name sorts first, while the display
      order lists that one first: with a limit of one, `getTopScores` shows the
      later name whatever the insertion order, the intended listing the
      earlier. */
  lemma TieKeepsLaterName(a: PlayerScore, b: PlayerScore)
    requires a.score == b.score && a.accuracy == b.accuracy
    requires NameLe(a.name, b.name) && a.name != b.name
    ensures ShownBefore(a, b) && !ShownBefore(b, a)
    ensures GetTopScoresAsWritten(Board([a, b]), 1) == [b]
    ensures GetTopScoresAsWritten(Board([b, a]), 1) == [b]
    ensures GetTopScores(Board([a, b]), 1) == [a]
    ensures GetTopScores(Board([b, a]), 1) == [a]
  {
    assert !NameLe(b.name, a.name) by {
      if NameLe(b.name, a.name) {
        NameLeAntisymmetric(a.name, b.name);
      }
    }
    HeapKeepsLater(a, b, [a, b]);
    HeapKeepsLater(a, b, [b, a]);
    SortPair(a, b, [a, b]);
    SortPair(a, b, [b, a]);
  }

  /** With a limit of one, the heap keeps the entry that pops later. */
  lemma HeapKeepsLater(a: PlayerScore, b: PlayerScore, k: seq<PlayerScore>)
    requires PopsBefore(a, b) && !PopsBefore(b, a)
    requires k == [a, b] || k == [b, a]
    ensures HeapSelect(k, 1).kept == [b]
  {
    if k == [a, b] {
      HeapOfPair(a, b);
      FirstLeastOfPair(a, b);
      assert RemoveAt([a, b], 0) == [b];
    } else {
      HeapOfPair(b, a);
      FirstLeastOfPair(b, a);
      assert RemoveAt([b, a], 1) == [b];
    }
  }

  /** Two pushes with a limit of one: the second pops. */
  lemma HeapOfPair(x: PlayerScore, y: PlayerScore)
    ensures HeapSelect([x, y], 1) == Selection(RemoveAt([x, y], FirstLeast([x, y])), [[x, y][FirstLeast([x, y])]])
  {
    assert HeapSelect([x], 1) == Selection([x], []) by {
      assert [x][..0] == [];
    }
    assert [x, y][..1] == [x];
    assert HeapSelect([x, y], 1) == Push(Selection([x], []), y, 1);
    assert [x] + [y] == [x, y];
  }

  /** Of two entries, the first is popped when it may leave first. */
  lemma FirstLeastOfPair(x: PlayerScore, y: PlayerScore)
    ensures FirstLeast([x, y]) == if PopsBefore(x, y) then 0 else 1
  {
    assert [x, y][1..] == [y];
  }

  /** Two entries, one strictly ahead of the other, sort into display order. */
  lemma SortPair(a: PlayerScore, b: PlayerScore, k: seq<PlayerScore>)
    requires ShownBefore(a, b) && !ShownBefore(b, a)
    requires k == [a, b] || k == [b, a]
    ensures SortForDisplay(k) == [a, b]
  {
    assert k[1..] == [k[1]];
    assert SortForDisplay([k[1]]) == [k[1]] by {
      assert [k[1]][1..] == [];
    }
    if k == [b, a] {
      assert [a][1..] == [];
      assert Insert(b, [a]) == [a] + Insert(b, []);
    }
  }

  /** A concrete instance: Alice and Bob both won their only round. */
  lemma AliceAndBob(alice: PlayerScore, bob: PlayerScore)
    requires alice == PlayerScore("1", "Alice", 1, 1, 100)
    requires bob == PlayerScore("2", "Bob", 1, 1, 100)
    ensures GetTopScoresAsWritten(Board([alice, bob]), 1) == [bob]
    ensures GetTopScores(Board([alice, bob]), 1) == [alice]
  {
    assert NameLe(alice.name, bob.name) && alice.name != bob.name by {
      assert alice.name[0] == 'A' && bob.name[0] == 'B';
    }
    TieKeepsLaterName(alice, bob);
  }
}
