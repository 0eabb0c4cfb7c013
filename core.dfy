/** `HighlightChangesCore`: the per-command object that keeps the last computed regions and
    the cursor of "go to next change". */
module Core {
  import opened Wrappers
  import opened Diff
  import opened Projection

  /** The outcome of one `goto_next_diff` call: the new value of `_current_region` and the
      index passed to `view.show`, if any. */
  datatype CursorStep = CursorStep(next: nat, shown: Option<nat>)

  /** One `goto_next_diff` call on a cursor and a region list of length `count`. */
  function Goto(cursor: nat, count: nat): (r: CursorStep)
    ensures r.shown.Some? ==> r.shown.value < count
    ensures r.shown.Some? <==> count > 0
    ensures count > 0 ==> 1 <= r.next <= count
    ensures count == 0 ==> r.next == 1
  {
    var c := if cursor >= count then 0 else cursor;
    CursorStep(c + 1, if count > 0 then Some(c) else None)
  }

  /** The indices shown by `calls` consecutive `goto_next_diff` calls on an unchanged list. */
  function ShownIndices(cursor: nat, count: nat, calls: nat): seq<Option<nat>>
    decreases calls
  {
    if calls == 0 then []
    else
      var step := Goto(cursor, count);
      [step.shown] + ShownIndices(step.next, count, calls - 1)
  }

  /** From any cursor c < count, the calls walk the indices c, c + 1, ..., count - 1 and
      then wrap to 0. */
  lemma {:induction false} WalkToEndThenWrap(cursor: nat, count: nat)
    requires cursor < count
    ensures ShownIndices(cursor, count, count - cursor + 1)
            == seq(count - cursor, i requires 0 <= i < count - cursor => Some(cursor + i)) + [Some(0)]
    decreases count - cursor
  {
    var tail := seq(count - cursor, i requires 0 <= i < count - cursor => Some(cursor + i));
    if cursor + 1 < count {
      WalkToEndThenWrap(cursor + 1, count);
      var later := seq(count - cursor - 1, i requires 0 <= i < count - cursor - 1 => Some(cursor + 1 + i));
      assert tail == [Some(cursor)] + later;
    } else {
      assert ShownIndices(count, count, 1) == [Some(0)];
    }
  }

  /** Starting at 0 with count > 0 regions, `count` calls show regions 0 .. count - 1 in
      order, and call count + 1 shows region 0 again. */
  lemma {:induction false} CycleFromStart(count: nat)
    requires count > 0
    ensures |ShownIndices(0, count, count + 1)| == count + 1
    ensures forall i :: 0 <= i < count ==> ShownIndices(0, count, count + 1)[i] == Some(i)
    ensures ShownIndices(0, count, count + 1)[count] == Some(0)
  {
    WalkToEndThenWrap(0, count);
  }

  /** On an empty list no call shows anything, whatever the cursor. */
  lemma {:induction false} EmptyListShowsNothing(cursor: nat, calls: nat)
    ensures forall i :: 0 <= i < |ShownIndices(cursor, 0, calls)| ==> ShownIndices(cursor, 0, calls)[i] == None
    ensures |ShownIndices(cursor, 0, calls)| == calls
    decreases calls
  {
    if calls > 0 {
      EmptyListShowsNothing(1, calls - 1);
    }
  }

  class HighlightChangesCore {
    /** `self.regions`: the regions computed by the last successful `highlight`. */
    var regions: seq<Region>
    /** `self._current_region`: the next region `goto_next_diff` will try to show. */
    var currentRegion: nat

    constructor ()
      ensures regions == [] && currentRegion == 0
    {
      regions := [];
      currentRegion := 0;
    }

    /** `goto_next_diff`: wrap the cursor to 0 at the end of the list, show the region it
        designates when there is one, then advance it. The returned index is the one
        passed to `view.show`. */
    method GotoNextDiff() returns (shown: Option<nat>)
      modifies this`currentRegion
      ensures CursorStep(currentRegion, shown) == Goto(old(currentRegion), |regions|)
      ensures shown.Some? ==> shown.value < |regions|
      ensures |regions| > 0 ==> shown.Some? && 1 <= currentRegion <= |regions|
      ensures |regions| == 0 ==> shown == None && currentRegion == 1
    {
      if currentRegion >= |regions| {
        currentRegion := 0;
      }
      shown := None;
      if |regions| > 0 {
        shown := Some(currentRegion);
      }
      currentRegion := currentRegion + 1;
    }

    /** `highlight`. `readOk` is false when opening or decoding the saved file fails;
        `blocks` is what `SequenceMatcher(None, saved, current).get_matching_blocks()`
        returns; `mode` is the `highlight_mode` setting. Any exception is swallowed before
        `self.regions` is assigned, so the regions keep their previous value. The result
        is the list passed to `view.add_regions`, `None` when nothing is passed. */
    method Highlight(readOk: bool, blocks: seq<MatchBlock>, mode: string) returns (rendered: Option<seq<Region>>)
      modifies this`regions
      ensures !readOk || blocks == [] ==> regions == old(regions) && rendered == None
      ensures readOk && blocks != [] ==> regions == ApplyMode(mode, Gaps(blocks), old(regions))
      ensures readOk && blocks != [] ==> rendered == Some(regions)
      ensures mode != MODE_TEXT && mode != MODE_DOTS ==> regions == old(regions)
    {
      if !readOk {
        return None;
      }
      var diffs := GetDiff(blocks);
      if diffs.None? {
        return None;
      }
      if mode == MODE_TEXT {
        regions := TextRegions(diffs.value);
      }
      if mode == MODE_DOTS {
        regions := DotRegions(diffs.value);
      }
      rendered := Some(regions);
    }

    /** `clear`: hands the editor an empty region list. It does not touch `self.regions`
        or the cursor. */
    method Clear() returns (sent: seq<Region>)
      ensures sent == []
    {
      sent := [];
    }
  }
}
