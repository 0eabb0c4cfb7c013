/** The mode projection in `HighlightChangesCore.highlight`: the list comprehensions that
    turn `get_diff`'s pairs into the regions handed to the editor. */
module Projection {
  import opened Diff

  /** An editor region from offset a to offset b of the current text. */
  datatype Region = Region(a: nat, b: nat)

  /** The two recognised values of the `highlight_mode` setting. */
  const MODE_DOTS: string := "dots"
  const MODE_TEXT: string := "text"

  /** Text mode: `[Region(d[0], d[1]) for d in diffs if d[0] != d[1]]`. */
  function TextRegions(diffs: seq<Gap>): (r: seq<Region>)
    ensures |r| <= |diffs|
    ensures forall x :: x in r <==> x.a != x.b && Gap(x.a, x.b) in diffs
    decreases |diffs|
  {
    if diffs == [] then []
    else
      var d := diffs[0];
      var rest := TextRegions(diffs[1..]);
      assert diffs == [d] + diffs[1..];
      if d.start != d.end then [Region(d.start, d.end)] + rest else rest
  }

  /** Dots mode: `[Region(d[0], d[0]) for d in diffs if d[0] != d[1]]`, a zero-width region
      at the start of each non-empty pair. */
  function DotRegions(diffs: seq<Gap>): (r: seq<Region>)
    ensures |r| == |TextRegions(diffs)|
    ensures forall i :: 0 <= i < |r| ==> r[i].a == r[i].b == TextRegions(diffs)[i].a
    decreases |diffs|
  {
    if diffs == [] then []
    else
      var d := diffs[0];
      var rest := DotRegions(diffs[1..]);
      var textRest := TextRegions(diffs[1..]);
      if d.start != d.end then
        assert TextRegions(diffs) == [Region(d.start, d.end)] + textRest;
        [Region(d.start, d.start)] + rest
      else
        assert TextRegions(diffs) == textRest;
        rest
  }

  /** What `highlight` leaves in `self.regions` for a given mode string: the projection of
      the pairs when the mode is recognised, the previous list otherwise. */
  function ApplyMode(mode: string, diffs: seq<Gap>, previous: seq<Region>): seq<Region>
  {
    if mode == MODE_TEXT then TextRegions(diffs)
    else if mode == MODE_DOTS then DotRegions(diffs)
    else previous
  }

  /** Pairs in ascending order, not overlapping, each with start <= end. */
  ghost predicate SortedGaps(diffs: seq<Gap>)
  {
    && (forall i :: 0 <= i < |diffs| ==> diffs[i].start <= diffs[i].end)
    && (forall i, j :: 0 <= i < j < |diffs| ==> diffs[i].end <= diffs[j].start)
  }

  /** Regions in ascending order, not overlapping. */
  ghost predicate SortedRegions(r: seq<Region>)
  {
    forall i, j :: 0 <= i < j < |r| ==> r[i].b <= r[j].a
  }

  lemma {:induction false} SortedGapsTail(diffs: seq<Gap>)
    requires SortedGaps(diffs) && diffs != []
    ensures SortedGaps(diffs[1..])
    ensures forall g :: g in diffs[1..] ==> diffs[0].end <= g.start
  {
    var rest := diffs[1..];
    forall g | g in rest
      ensures diffs[0].end <= g.start
    {
      var k :| 0 <= k < |rest| && rest[k] == g;
      assert diffs[k + 1] == g;
    }
  }

  /** A region placed before every region of a sorted list keeps the list sorted. */
  lemma {:induction false} ConsSorted(head: Region, rest: seq<Region>)
    requires SortedRegions(rest)
    requires forall x :: x in rest ==> head.b <= x.a
    ensures SortedRegions([head] + rest)
  {
    var r := [head] + rest;
    forall i, j | 0 <= i < j < |r|
      ensures r[i].b <= r[j].a
    {
      assert r[j] == rest[j - 1];
      if 0 < i {
        assert r[i] == rest[i - 1];
      } else {
        assert rest[j - 1] in rest;
      }
    }
  }

  /** Text mode keeps the order of the pairs: sorted, disjoint pairs give sorted,
      disjoint, non-empty regions. */
  lemma {:induction false} TextRegionsSorted(diffs: seq<Gap>)
    requires SortedGaps(diffs)
    ensures SortedRegions(TextRegions(diffs))
    ensures forall x :: x in TextRegions(diffs) ==> x.a < x.b
    decreases |diffs|
  {
    if diffs != [] {
      SortedGapsTail(diffs);
      TextRegionsSorted(diffs[1..]);
      var d := diffs[0];
      var rest := TextRegions(diffs[1..]);
      if d.start != d.end {
        assert forall x :: x in rest ==> Gap(x.a, x.b) in diffs[1..];
        ConsSorted(Region(d.start, d.end), rest);
        assert TextRegions(diffs) == [Region(d.start, d.end)] + rest;
      }
    }
  }

  /** Dots mode places strictly ascending, hence distinct, markers when the pairs are
      sorted and disjoint. */
  lemma {:induction false} DotRegionsAscending(diffs: seq<Gap>)
    requires SortedGaps(diffs)
    ensures forall i, j :: 0 <= i < j < |DotRegions(diffs)| ==> DotRegions(diffs)[i].a < DotRegions(diffs)[j].a
  {
    TextRegionsSorted(diffs);
    var t := TextRegions(diffs);
    var r := DotRegions(diffs);
    forall i, j | 0 <= i < j < |r|
      ensures r[i].a < r[j].a
    {
      assert t[i] in t;
      assert r[i].a == t[i].a && r[j].a == t[j].a;
    }
  }

  /** `get_diff`'s pairs from well-formed blocks are sorted and end inside the current text. */
  lemma {:induction false} GapsSortedWithin(blocks: seq<MatchBlock>, lenA: nat, lenB: nat)
    requires WellFormedBlocks(blocks, lenA, lenB)
    ensures SortedGaps(Gaps(blocks))
    ensures forall g :: g in Gaps(blocks) ==> g.start <= g.end <= lenB
  {
    var diffs := Gaps(blocks);
    GapsWithinCurrent(blocks, lenA, lenB);
    GapsSorted(blocks, lenA, lenB);
    forall i | 0 <= i < |diffs|
      ensures diffs[i].start <= diffs[i].end
    {
      assert diffs[i] in diffs;
    }
  }

  /** Every dot lies strictly before any bound that the pairs' ends respect. */
  lemma {:induction false} DotRegionsBelow(diffs: seq<Gap>, bound: nat)
    requires forall g :: g in diffs ==> g.start <= g.end <= bound
    ensures forall x :: x in DotRegions(diffs) ==> x.a == x.b < bound
  {
    var t := TextRegions(diffs);
    var r := DotRegions(diffs);
    forall x | x in r
      ensures x.a == x.b < bound
    {
      var i :| 0 <= i < |r| && r[i] == x;
      assert t[i] in t;
      assert Gap(t[i].a, t[i].b) in diffs;
    }
  }

  /** The regions `highlight` computes from well-formed matching blocks, in either mode,
      are ascending, disjoint and inside the current text. */
  lemma {:induction false} HighlightRegionsWithinCurrent(blocks: seq<MatchBlock>, lenA: nat, lenB: nat)
    requires WellFormedBlocks(blocks, lenA, lenB)
    ensures SortedRegions(TextRegions(Gaps(blocks)))
    ensures forall x :: x in TextRegions(Gaps(blocks)) ==> x.a < x.b <= lenB
    ensures forall x :: x in DotRegions(Gaps(blocks)) ==> x.a == x.b < lenB
  {
    GapsSortedWithin(blocks, lenA, lenB);
    TextRegionsSorted(Gaps(blocks));
    DotRegionsBelow(Gaps(blocks), lenB);
  }

  /** Appending k characters to a text of n > 0 characters: the blocks are (0, 0, n) and
      the dummy (n, n + k, 0), and text mode reports exactly the appended suffix. */
  lemma AppendedSuffixReported(n: nat, k: nat)
    requires n > 0 && k > 0
    ensures WellFormedBlocks([MatchBlock(0, 0, n), MatchBlock(n, n + k, 0)], n, n + k)
    ensures TextRegions(Gaps([MatchBlock(0, 0, n), MatchBlock(n, n + k, 0)])) == [Region(n, n + k)]
    ensures DotRegions(Gaps([MatchBlock(0, 0, n), MatchBlock(n, n + k, 0)])) == [Region(n, n)]
  {
  }

  /** Saved "hello world", current "hello brave world": with the blocks (0, 0, 6),
      (6, 12, 5) and the dummy (11, 17, 0), text mode marks "brave " at [6, 12) and dots
      mode puts one marker at 6. */
  lemma InsertedWordReported()
    ensures WellFormedBlocks([MatchBlock(0, 0, 6), MatchBlock(6, 12, 5), MatchBlock(11, 17, 0)], 11, 17)
    ensures TextRegions(Gaps([MatchBlock(0, 0, 6), MatchBlock(6, 12, 5), MatchBlock(11, 17, 0)])) == [Region(6, 12)]
    ensures DotRegions(Gaps([MatchBlock(0, 0, 6), MatchBlock(6, 12, 5), MatchBlock(11, 17, 0)])) == [Region(6, 6)]
  {
  }
}
