/** `HighlightChangesCore.get_diff`: the changed ranges of the current text, read off the
    matching blocks that Python's `difflib.SequenceMatcher` reports for (saved, current). */
module Diff {
  import opened Wrappers

  /** One triple (i, j, n) of `get_matching_blocks()`: saved[i..i+n] == current[j..j+n]. */
  datatype MatchBlock = MatchBlock(a: nat, b: nat, size: nat)

  /** One pair (start, end) of `get_diff`'s result, in current-text offsets. */
  datatype Gap = Gap(start: nat, end: nat)

  /** Where a block's matched run ends in the current text (`m[1] + m[2]`). */
  function End(m: MatchBlock): nat
  {
    m.b + m.size
  }

  /** The shape `get_matching_blocks()` documents for texts of lengths lenA (saved) and
      lenB (current): the triples increase in both coordinates without overlapping,
      and the last one is the dummy (lenA, lenB, 0). */
  predicate WellFormedBlocks(blocks: seq<MatchBlock>, lenA: nat, lenB: nat)
  {
    && |blocks| >= 1
    && blocks[|blocks| - 1] == MatchBlock(lenA, lenB, 0)
    && forall i, j :: 0 <= i < |blocks| - 1 && j == i + 1 ==> Precedes(blocks[i], blocks[j])
  }

  /** Block m ends, in both texts, no later than block n starts. */
  predicate Precedes(m: MatchBlock, n: MatchBlock)
  {
    m.a + m.size <= n.a && End(m) <= n.b
  }

  /** The fold of `get_diff`: starting with the first block as `prev`, each following
      block `u` contributes the pair (end of `prev`, start of `u`). */
  function Gaps(blocks: seq<MatchBlock>): (r: seq<Gap>)
    requires |blocks| >= 1
    ensures |r| == |blocks| - 1
    ensures forall i :: 0 <= i < |r| ==> r[i].start == End(blocks[i]) && r[i].end == blocks[i + 1].b
    decreases |blocks|
  {
    if |blocks| == 1 then []
    else [Gap(End(blocks[0]), blocks[1].b)] + Gaps(blocks[1..])
  }

  /** `get_diff` as written: the comprehension (`unchanged` in the source, `runs` here)
      keeps (b, b + size) of each block, and the loop pairs consecutive entries. An empty
      block list makes `unchanged[0]` raise, which is `None` here. */
  method GetDiff(blocks: seq<MatchBlock>) returns (diffs: Option<seq<Gap>>)
    ensures diffs.None? <==> blocks == []
    ensures diffs.Some? ==> |diffs.value| == |blocks| - 1
    ensures diffs.Some? ==> diffs.value == Gaps(blocks)
  {
    var runs := seq(|blocks|, k requires 0 <= k < |blocks| => (blocks[k].b, End(blocks[k])));
    if |runs| == 0 {
      return None;
    }
    var ds: seq<Gap> := [];
    var prev := runs[0];
    var i := 1;
    while i < |runs|
      invariant 1 <= i <= |runs|
      invariant prev == runs[i - 1]
      invariant |ds| == i - 1
      invariant forall k :: 0 <= k < i - 1 ==> ds[k].start == End(blocks[k]) && ds[k].end == blocks[k + 1].b
    {
      var u := runs[i];
      ds := ds + [Gap(prev.1, u.0)];
      prev := u;
      i := i + 1;
    }
    ghost var spec := Gaps(blocks);
    forall k | 0 <= k < |ds|
      ensures ds[k] == spec[k]
    {
      assert ds[k].end == blocks[k + 1].b;
      assert spec[k].end == blocks[k + 1].b;
      assert ds[k].start == spec[k].start && ds[k].end == spec[k].end;
    }
    return Some(ds);
  }

  /** Well-formed blocks ascend in the current text across any distance, not only
      between neighbours. */
  lemma {:induction false} BlocksAscend(blocks: seq<MatchBlock>, lenA: nat, lenB: nat, i: nat, j: nat)
    requires WellFormedBlocks(blocks, lenA, lenB)
    requires i < j < |blocks|
    ensures End(blocks[i]) <= blocks[j].b
    ensures blocks[i].a + blocks[i].size <= blocks[j].a
    decreases j - i
  {
    if i + 1 < j {
      BlocksAscend(blocks, lenA, lenB, i + 1, j);
    }
  }

  /** Every block of a well-formed list lies inside both texts. */
  lemma {:induction false} BlocksWithinTexts(blocks: seq<MatchBlock>, lenA: nat, lenB: nat, k: nat)
    requires WellFormedBlocks(blocks, lenA, lenB)
    requires k < |blocks|
    ensures End(blocks[k]) <= lenB
    ensures blocks[k].a + blocks[k].size <= lenA
  {
    if k < |blocks| - 1 {
      BlocksAscend(blocks, lenA, lenB, k, |blocks| - 1);
    }
  }

  /** Every pair lies inside the current text with start <= end, and, when there is
      at least one pair, the last one ends at the end of the current text. */
  lemma {:induction false} GapsWithinCurrent(blocks: seq<MatchBlock>, lenA: nat, lenB: nat)
    requires WellFormedBlocks(blocks, lenA, lenB)
    ensures forall g :: g in Gaps(blocks) ==> g.start <= g.end <= lenB
    ensures |blocks| >= 2 ==> Gaps(blocks)[|blocks| - 2].end == lenB
  {
    var r := Gaps(blocks);
    forall i | 0 <= i < |r|
      ensures r[i].start <= r[i].end <= lenB
    {
      assert r[i].end == blocks[i + 1].b;
      BlocksWithinTexts(blocks, lenA, lenB, i + 1);
    }
  }

  /** The pairs come in ascending order and do not overlap. */
  lemma {:induction false} GapsSorted(blocks: seq<MatchBlock>, lenA: nat, lenB: nat)
    requires WellFormedBlocks(blocks, lenA, lenB)
    ensures forall i, j :: 0 <= i < j < |Gaps(blocks)| ==> Gaps(blocks)[i].end <= Gaps(blocks)[j].start
  {
    var r := Gaps(blocks);
    forall i, j | 0 <= i < j < |r|
      ensures r[i].end <= r[j].start
    {
      assert r[i].end == blocks[i + 1].b && r[j].start == End(blocks[j]);
      if i + 1 < j {
        BlocksAscend(blocks, lenA, lenB, i + 1, j);
      }
    }
  }

  /** Nothing before the end of the first matched run is ever reported: a change
      in front of the first block is invisible to `get_diff`. */
  lemma {:induction false} NoGapBeforeFirstBlock(blocks: seq<MatchBlock>, lenA: nat, lenB: nat)
    requires WellFormedBlocks(blocks, lenA, lenB)
    ensures forall g :: g in Gaps(blocks) ==> End(blocks[0]) <= g.start
  {
    var r := Gaps(blocks);
    forall i | 0 <= i < |r|
      ensures End(blocks[0]) <= r[i].start
    {
      assert r[i].start == End(blocks[i]);
      if 0 < i {
        BlocksAscend(blocks, lenA, lenB, 0, i);
      }
    }
  }

  /** When the matcher finds nothing in common, only the dummy block is reported and
      `get_diff` returns no pair at all, even though the whole current text differs. */
  lemma NoCommonContentReportsNothing(lenA: nat, lenB: nat)
    ensures WellFormedBlocks([MatchBlock(lenA, lenB, 0)], lenA, lenB)
    ensures Gaps([MatchBlock(lenA, lenB, 0)]) == []
  {
  }

  /** Identical texts of length n, whose first block is (0, 0, n), give only empty pairs,
      all at offset n. */
  lemma {:induction false} IdenticalTextsOnlyEmptyGaps(blocks: seq<MatchBlock>, n: nat)
    requires WellFormedBlocks(blocks, n, n)
    requires blocks[0] == MatchBlock(0, 0, n)
    ensures forall g :: g in Gaps(blocks) ==> g == Gap(n, n)
  {
    var r := Gaps(blocks);
    forall i | 0 <= i < |r|
      ensures r[i] == Gap(n, n)
    {
      BlocksAscend(blocks, n, n, 0, i + 1);
      BlocksWithinTexts(blocks, n, n, i + 1);
      if 0 < i {
        BlocksAscend(blocks, n, n, 0, i);
      }
      BlocksWithinTexts(blocks, n, n, i);
    }
  }

  /** `get_diff` reads only the current-text coordinates: two block lists that agree on
      `b` and `size` give the same pairs whatever their saved-text coordinates. */
  lemma {:induction false} IgnoresSavedCoordinate(blocks: seq<MatchBlock>, others: seq<MatchBlock>)
    requires |blocks| == |others| >= 1
    requires forall k :: 0 <= k < |blocks| ==> blocks[k].b == others[k].b && blocks[k].size == others[k].size
    ensures Gaps(blocks) == Gaps(others)
  {
    var r, q := Gaps(blocks), Gaps(others);
    forall i | 0 <= i < |r|
      ensures r[i] == q[i]
    {
      assert blocks[i + 1].b == others[i + 1].b;
      assert r[i].start == q[i].start && r[i].end == q[i].end;
    }
  }

  /** Offset p of the current text lies inside some matched run. */
  ghost predicate Matched(blocks: seq<MatchBlock>, p: nat)
  {
    exists k :: 0 <= k < |blocks| && blocks[k].b <= p < End(blocks[k])
  }

  /** Offset p of the current text lies inside some reported pair. */
  ghost predicate Reported(gaps: seq<Gap>, p: nat)
  {
    exists i :: 0 <= i < |gaps| && gaps[i].start <= p < gaps[i].end
  }

  /** Dropping the first block of a well-formed list of at least two keeps it well formed. */
  lemma {:induction false} WellFormedTail(blocks: seq<MatchBlock>, lenA: nat, lenB: nat)
    requires WellFormedBlocks(blocks, lenA, lenB) && |blocks| >= 2
    ensures WellFormedBlocks(blocks[1..], lenA, lenB)
  {
    var rest := blocks[1..];
    forall i | 0 <= i < |rest| - 1
      ensures rest[i].a + rest[i].size <= rest[i + 1].a && End(rest[i]) <= rest[i + 1].b
    {
      assert rest[i] == blocks[i + 1] && rest[i + 1] == blocks[i + 2];
    }
  }

  lemma {:induction false} ReportedCons(head: Gap, rest: seq<Gap>, p: nat)
    ensures Reported([head] + rest, p) <==> head.start <= p < head.end || Reported(rest, p)
  {
    var all := [head] + rest;
    if head.start <= p < head.end {
      assert all[0] == head;
    }
    if Reported(all, p) {
      var i :| 0 <= i < |all| && all[i].start <= p < all[i].end;
      if 0 < i {
        assert rest[i - 1] == all[i];
      }
    }
    if Reported(rest, p) {
      var i :| 0 <= i < |rest| && rest[i].start <= p < rest[i].end;
      assert all[i + 1] == rest[i];
    }
  }

  lemma {:induction false} MatchedCons(blocks: seq<MatchBlock>, p: nat)
    requires |blocks| >= 1
    ensures Matched(blocks, p) <==> blocks[0].b <= p < End(blocks[0]) || Matched(blocks[1..], p)
  {
    var rest := blocks[1..];
    if Matched(blocks, p) {
      var k :| 0 <= k < |blocks| && blocks[k].b <= p < End(blocks[k]);
      if 0 < k {
        assert rest[k - 1] == blocks[k];
      }
    }
    if Matched(rest, p) {
      var k :| 0 <= k < |rest| && rest[k].b <= p < End(rest[k]);
      assert blocks[k + 1] == rest[k];
    }
  }

  /** No block after the first covers an offset in front of the second block. */
  lemma {:induction false} UnmatchedBeforeSecond(blocks: seq<MatchBlock>, lenA: nat, lenB: nat, p: nat)
    requires WellFormedBlocks(blocks, lenA, lenB) && |blocks| >= 2
    requires p < blocks[1].b
    ensures !Matched(blocks[1..], p)
  {
    var rest := blocks[1..];
    forall k | 0 <= k < |rest|
      ensures !(rest[k].b <= p < End(rest[k]))
    {
      assert rest[k] == blocks[k + 1];
      if 0 < k {
        BlocksAscend(blocks, lenA, lenB, 1, k + 1);
      }
    }
  }

  /** Exactly which offsets `get_diff` reports: those of the current text that no
      matched run covers, from the start of the first block on. */
  lemma {:induction false} ReportedIffUnmatched(blocks: seq<MatchBlock>, lenA: nat, lenB: nat, p: nat)
    requires WellFormedBlocks(blocks, lenA, lenB)
    ensures Reported(Gaps(blocks), p) <==> blocks[0].b <= p < lenB && !Matched(blocks, p)
    decreases |blocks|
  {
    if |blocks| == 1 {
      assert Gaps(blocks) == [];
    } else {
      var rest := blocks[1..];
      WellFormedTail(blocks, lenA, lenB);
      ReportedIffUnmatched(rest, lenA, lenB, p);
      ReportedCons(Gap(End(blocks[0]), blocks[1].b), Gaps(rest), p);
      MatchedCons(blocks, p);
      if p < blocks[1].b {
        UnmatchedBeforeSecond(blocks, lenA, lenB, p);
      }
      BlocksWithinTexts(blocks, lenA, lenB, 1);
    }
  }
}
