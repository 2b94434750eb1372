/** Companion scoring (src/logic/companion.rs): how well a vegetable gets on
    with the vegetables already planted next to it. */
module Companions {
  import opened Vegetables

  /** Added once for every neighbour found in the good-companion list. */
  const GOOD_COMPANION_SCORE: int := 2

  /** Added once for every neighbour found in the bad-companion list. */
  const BAD_COMPANION_SCORE: int := -3

  /** What a single neighbour identifier contributes to the score of `v`.
      The two lists are checked independently, so an identifier found in both
      contributes both amounts. */
  function Contribution(v: Vegetable, neighbour: string): int
  {
    (if neighbour in v.goodCompanions then GOOD_COMPANION_SCORE else 0)
    + (if neighbour in v.badCompanions then BAD_COMPANION_SCORE else 0)
  }

  /** The companion score of `v` against the identifiers of its neighbours,
      each occurrence counted. Every neighbour moves the score by at least the
      bad amount and at most the good amount. */
  function Score(v: Vegetable, neighbours: seq<string>): (s: int)
    ensures BAD_COMPANION_SCORE * |neighbours| <= s <= GOOD_COMPANION_SCORE * |neighbours|
  {
    if |neighbours| == 0 then 0
    else Contribution(v, neighbours[0]) + Score(v, neighbours[1..])
  }

  /** No neighbours, no score; one neighbour scores +2 if only good, -3 if only
      bad, 0 if in neither list and -1 if listed on both sides. */
  lemma ScoreOfOneNeighbour(v: Vegetable, id: string)
    ensures Score(v, []) == 0
    ensures id in v.goodCompanions && id !in v.badCompanions ==> Score(v, [id]) == 2
    ensures id !in v.goodCompanions && id in v.badCompanions ==> Score(v, [id]) == -3
    ensures id !in v.goodCompanions && id !in v.badCompanions ==> Score(v, [id]) == 0
    ensures id in v.goodCompanions && id in v.badCompanions ==> Score(v, [id]) == -1
  {
  }

  /** The score is additive over a split of the neighbour list. */
  lemma {:induction false} ScoreAppend(v: Vegetable, xs: seq<string>, ys: seq<string>)
    ensures Score(v, xs + ys) == Score(v, xs) + Score(v, ys)
  {
    if |xs| > 0 {
      assert (xs + ys)[1..] == xs[1..] + ys;
      ScoreAppend(v, xs[1..], ys);
    } else {
      assert xs + ys == ys;
    }
  }

  /** Taking one neighbour out of the list takes its contribution out of the score. */
  lemma ScoreRemove(v: Vegetable, ys: seq<string>, i: nat)
    requires i < |ys|
    ensures Score(v, ys) == Contribution(v, ys[i]) + Score(v, ys[..i] + ys[i + 1..])
  {
    assert ys == ys[..i] + ([ys[i]] + ys[i + 1..]);
    ScoreAppend(v, ys[..i], [ys[i]] + ys[i + 1..]);
    ScoreAppend(v, [ys[i]], ys[i + 1..]);
    ScoreAppend(v, ys[..i], ys[i + 1..]);
  }

  lemma MultisetRemove(xs: seq<string>, ys: seq<string>, i: nat)
    requires |xs| > 0 && i < |ys| && ys[i] == xs[0]
    requires multiset(xs) == multiset(ys)
    ensures multiset(xs[1..]) == multiset(ys[..i] + ys[i + 1..])
  {
    assert xs == [xs[0]] + xs[1..];
    assert ys == ys[..i] + [ys[i]] + ys[i + 1..];
    assert multiset(xs[1..]) == multiset(xs) - multiset{xs[0]};
  }

  /** The score depends only on the multiset of neighbours, not their order. */
  lemma {:induction false} ScorePermutation(v: Vegetable, xs: seq<string>, ys: seq<string>)
    requires multiset(xs) == multiset(ys)
    ensures Score(v, xs) == Score(v, ys)
    decreases |xs|
  {
    if |xs| > 0 {
      assert xs[0] in multiset(ys);
      var i :| 0 <= i < |ys| && ys[i] == xs[0];
      MultisetRemove(xs, ys, i);
      ScorePermutation(v, xs[1..], ys[..i] + ys[i + 1..]);
      ScoreRemove(v, ys, i);
    } else {
      assert |ys| == |multiset(ys)| == 0;
    }
  }

  /** A neighbour that appears `n` times is counted `n` times. */
  lemma {:induction false} ScoreRepeated(v: Vegetable, id: string, n: nat)
    ensures Score(v, seq(n, _ => id)) == n * Contribution(v, id)
  {
    if n > 0 {
      var s := seq(n, _ => id);
      assert s[1..] == seq(n - 1, _ => id);
      ScoreRepeated(v, id, n - 1);
    }
  }

  /** When every neighbour is only a good companion, the score is +2 each. */
  lemma {:induction false} ScoreAllGood(v: Vegetable, ids: seq<string>)
    requires forall i :: 0 <= i < |ids| ==> ids[i] in v.goodCompanions && ids[i] !in v.badCompanions
    ensures Score(v, ids) == GOOD_COMPANION_SCORE * |ids|
  {
    if |ids| > 0 {
      ScoreAllGood(v, ids[1..]);
    }
  }

  /** When every neighbour is only a bad companion, the score is -3 each. */
  lemma {:induction false} ScoreAllBad(v: Vegetable, ids: seq<string>)
    requires forall i :: 0 <= i < |ids| ==> ids[i] !in v.goodCompanions && ids[i] in v.badCompanions
    ensures Score(v, ids) == BAD_COMPANION_SCORE * |ids|
  {
    if |ids| > 0 {
      ScoreAllBad(v, ids[1..]);
    }
  }

  /** Two vegetables are compatible unless either lists the other as a bad companion. */
  predicate IsCompatible(a: Vegetable, b: Vegetable)
  {
    b.id !in a.badCompanions && a.id !in b.badCompanions
  }

  /** Compatibility is the same read from either side. */
  lemma CompatibleSymmetric(a: Vegetable, b: Vegetable)
    ensures IsCompatible(a, b) <==> IsCompatible(b, a)
  {
  }

  /** Incompatibility is exactly a bad-list entry on either side, and such an
      entry makes the corresponding one-neighbour score negative; compatible
      vegetables never penalise each other. */
  lemma CompatibleMeansNoPenalty(a: Vegetable, b: Vegetable)
    ensures !IsCompatible(a, b) <==> b.id in a.badCompanions || a.id in b.badCompanions
    ensures b.id in a.badCompanions ==> Score(a, [b.id]) < 0
    ensures a.id in b.badCompanions ==> Score(b, [a.id]) < 0
    ensures IsCompatible(a, b) ==> Score(a, [b.id]) >= 0 && Score(b, [a.id]) >= 0
  {
    ScoreOfOneNeighbour(a, b.id);
    ScoreOfOneNeighbour(b, a.id);
  }
}
