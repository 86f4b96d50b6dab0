/** Level assignment: the distinct candidate sizes are ranked largest first;
    the top three sizes map to H1, H2 and H3, every smaller size falls back to
    H2, and each candidate becomes an outline entry with a 1-based page. */
module Levels {
  import opened Sorting
  import opened Spans

  function CandidateSizes(cands: seq<Candidate>): seq<real> {
    seq(|cands|, k requires 0 <= k < |cands| => cands[k].size)
  }

  /** `ranked_sizes`: each candidate size once, largest first. Sizes are the
      keys of a counter, so they are distinct and the frequency part of the
      sort key never decides an order. */
  function RankedSizes(cands: seq<Candidate>): (ranked: seq<real>)
    ensures StrictlyDescending(ranked)
    ensures forall x :: x in ranked <==> exists c :: c in cands && c.size == x
  {
    var sizes := CandidateSizes(cands);
    forall x ensures x in sizes <==> exists c :: c in cands && c.size == x {
      if x in sizes {
        var k :| 0 <= k < |sizes| && sizes[k] == x;
        assert cands[k] in cands;
      }
      if c :| c in cands && c.size == x {
        var k :| 0 <= k < |cands| && cands[k] == c;
        assert sizes[k] == x;
      }
    }
    DistinctDescending(sizes)
  }

  /** `size_to_level`: H1, H2, H3 for the first three ranked sizes, then the
      fallback that gives the first candidate's size H1 when no level was
      assigned at all. */
  function SizeLevels(cands: seq<Candidate>): map<real, Level> {
    var ranked := RankedSizes(cands);
    var m1 := if |ranked| > 0 then map[ranked[0] := H1] else map[];
    var m2 := if |ranked| > 1 then m1[ranked[1] := H2] else m1;
    var m3 := if |ranked| > 2 then m2[ranked[2] := H3] else m2;
    if |m3.Values| == 0 && |cands| > 0 then m3[cands[0].size := H1] else m3
  }

  /** The level of a candidate of the given size: its assigned level, or H2
      when some size holds H1, or H1 otherwise. */
  function LevelOf(m: map<real, Level>, size: real): Level {
    if size in m then m[size]
    else if H1 in m.Values then H2
    else H1
  }

  function AssignLevels(cands: seq<Candidate>): (entries: seq<Entry>)
    ensures |entries| == |cands|
    ensures forall k :: 0 <= k < |cands| ==> entries[k].text == cands[k].text && entries[k].page == cands[k].page + 1
  {
    var m := SizeLevels(cands);
    seq(|cands|, k requires 0 <= k < |cands| => Entry(LevelOf(m, cands[k].size), cands[k].text, cands[k].page + 1))
  }

  /** The level a size of the given rank receives. */
  function RankLevel(rank: nat): Level {
    if rank == 0 then H1 else if rank == 1 then H2 else if rank == 2 then H3 else H2
  }

  /** The distinct sizes among the candidates. */
  function SizeSet(cands: seq<Candidate>): set<real> {
    set c | c in cands :: c.size
  }

  /** The map holds exactly the three largest sizes, or all sizes when there
      are fewer, each with its rank's level; the first-candidate fallback never
      changes it. */
  lemma SizeLevelsByRank(cands: seq<Candidate>)
    ensures var ranked := RankedSizes(cands); var m := SizeLevels(cands);
      && (forall x :: x in m <==> exists k :: 0 <= k < |ranked| && k < 3 && ranked[k] == x)
      && (forall k :: 0 <= k < |ranked| && k < 3 ==> m[ranked[k]] == RankLevel(k))
  {
    var ranked := RankedSizes(cands);
    if |cands| > 0 {
      assert cands[0] in cands;
    }
  }

  /** Every entry's level follows the rank of its size among all candidate
      sizes: the largest size is H1, the second H2, the third H3 and every
      smaller size H2. */
  lemma LevelsFollowRank(cands: seq<Candidate>, k: nat)
    requires k < |cands|
    ensures AssignLevels(cands)[k].level == RankLevel(Rank(cands[k].size, SizeSet(cands)))
  {
    var ranked := RankedSizes(cands);
    var m := SizeLevels(cands);
    SizeLevelsByRank(cands);
    assert cands[k] in cands && cands[k].size in ranked;
    assert (set y | y in ranked) == SizeSet(cands);
    var idx :| 0 <= idx < |ranked| && ranked[idx] == cands[k].size;
    RankIsIndex(ranked, idx);
    if idx >= 3 {
      assert cands[k].size !in m;
      assert ranked[0] in m && m[ranked[0]] == H1;
      assert H1 in m.Values;
    }
  }

  /** In a strictly descending list every value is at most the head, and
      exactly the values below the head sit in the tail. */
  lemma HeadIsMax(xs: seq<real>, y: real)
    requires StrictlyDescending(xs) && y in xs
    ensures y <= xs[0]
    ensures y in xs[1..] <==> y < xs[0]
  {
    var a :| 0 <= a < |xs| && xs[a] == y;
    if a > 0 {
      assert xs[1..][a - 1] == y;
    }
    if y in xs[1..] {
      var b :| 0 <= b < |xs| - 1 && xs[1..][b] == y;
      assert xs[b + 1] == y;
    }
  }

  /** Two strictly descending lists holding the same values are equal. */
  lemma {:induction false} DescendingUnique(xs: seq<real>, ys: seq<real>)
    requires StrictlyDescending(xs) && StrictlyDescending(ys)
    requires forall y :: y in xs <==> y in ys
    ensures xs == ys
    decreases |xs|
  {
    if |ys| > 0 {
      assert ys[0] in ys;
    }
    if |xs| > 0 {
      assert xs[0] in xs;
      HeadIsMax(xs, ys[0]);
      HeadIsMax(ys, xs[0]);
      forall y ensures y in xs[1..] <==> y in ys[1..] {
        if y in xs[1..] {
          assert y in xs;
          HeadIsMax(xs, y);
          HeadIsMax(ys, y);
        }
        if y in ys[1..] {
          assert y in ys;
          HeadIsMax(ys, y);
          HeadIsMax(xs, y);
        }
      }
      DescendingUnique(xs[1..], ys[1..]);
      assert xs == [xs[0]] + xs[1..] && ys == [ys[0]] + ys[1..];
    }
  }

  /** Candidate sizes 18, 14, 14, 11 get H1, H2, H2, H3. */
  lemma FourSizeExample(cands: seq<Candidate>)
    requires |cands| == 4
    requires cands[0].size == 18.0 && cands[1].size == 14.0 && cands[2].size == 14.0 && cands[3].size == 11.0
    ensures var levels := AssignLevels(cands);
      levels[0].level == H1 && levels[1].level == H2 && levels[2].level == H2 && levels[3].level == H3
  {
    var ranked := RankedSizes(cands);
    forall y ensures y in ranked <==> y in [18.0, 14.0, 11.0] {
      if y in ranked {
        var c :| c in cands && c.size == y;
      }
      if y in [18.0, 14.0, 11.0] {
        assert y == cands[0].size || y == cands[1].size || y == cands[3].size;
      }
    }
    DescendingUnique(ranked, [18.0, 14.0, 11.0]);
    SizeLevelsByRank(cands);
  }
}
