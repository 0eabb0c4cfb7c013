/** `HighlightWhenTypingListener`: the debounce counter that coalesces a burst of edits into
    one recomputation. Each timer callback is an explicit event here. */
module Listener {
  import opened Wrappers
  import opened Projection
  import opened Core

  /** An editor view, identified by its position in the host's list of views. */
  type View = nat

  /** `pending` after one `on_modified`: incremented only when `highlight_as_you_type()`. */
  function AfterModified(pending: int, asYouType: bool): int
  {
    if asYouType then pending + 1 else pending
  }

  /** The outcome of one `handle_timeout`: the new `pending` and whether `on_idle` ran. */
  datatype TimeoutStep = TimeoutStep(pending: int, idle: bool)

  function AfterTimeout(pending: int): TimeoutStep
  {
    TimeoutStep(pending - 1, pending - 1 == 0)
  }

  /** What the host delivers to the one listener it keeps for all views: an edit in a view,
      with the value `highlight_as_you_type()` has at that moment, or one scheduled timeout
      firing, carrying the view its `functools.partial` was bound to. */
  datatype Event = Modified(view: View, asYouType: bool) | Timeout(view: View)

  /** The counter after a sequence of events, and the views on which `on_idle` ran, in
      order. */
  datatype Replayed = Replayed(pending: int, recomputed: seq<View>)

  function Replay(pending: int, events: seq<Event>): Replayed
    decreases |events|
  {
    if events == [] then Replayed(pending, [])
    else match events[0]
      case Modified(_, asYouType) => Replay(AfterModified(pending, asYouType), events[1..])
      case Timeout(v) =>
        var step := AfterTimeout(pending);
        var later := Replay(step.pending, events[1..]);
        Replayed(later.pending, (if step.idle then [v] else []) + later.recomputed)
  }

  /** Timeouts scheduled by the edits of a sequence: one per edit made with as-you-type on. */
  function Scheduled(events: seq<Event>): nat
    decreases |events|
  {
    if events == [] then 0
    else (if events[0].Modified? && events[0].asYouType then 1 else 0) + Scheduled(events[1..])
  }

  function Fired(events: seq<Event>): nat
    decreases |events|
  {
    if events == [] then 0
    else (if events[0].Timeout? then 1 else 0) + Fired(events[1..])
  }

  /** `pending` always equals the timeouts scheduled minus the timeouts delivered, whatever
      views they belong to. */
  lemma {:induction false} PendingCountsOutstanding(pending: int, events: seq<Event>)
    ensures Replay(pending, events).pending == pending + Scheduled(events) - Fired(events)
    decreases |events|
  {
    if events != [] {
      var next := match events[0]
        case Modified(_, asYouType) => AfterModified(pending, asYouType)
        case Timeout(_) => pending - 1;
      PendingCountsOutstanding(next, events[1..]);
    }
  }

  function Repeat(e: Event, k: nat): (r: seq<Event>)
    ensures |r| == k
    ensures forall i :: 0 <= i < k ==> r[i] == e
  {
    seq(k, i => e)
  }

  /** k edits in view v with as-you-type on raise the counter by k and recompute nothing. */
  lemma {:induction false} EditsThenRest(pending: int, v: View, k: nat, rest: seq<Event>)
    ensures Replay(pending, Repeat(Modified(v, true), k) + rest) == Replay(pending + k, rest)
    decreases k
  {
    if k > 0 {
      var events := Repeat(Modified(v, true), k) + rest;
      assert events[0] == Modified(v, true);
      assert events[1..] == Repeat(Modified(v, true), k - 1) + rest;
      assert Replay(pending, events) == Replay(pending + 1, events[1..]);
      EditsThenRest(pending + 1, v, k - 1, rest);
    } else {
      assert Repeat(Modified(v, true), k) + rest == rest;
    }
  }

  /** Delivering j timeouts to a counter above j never calls `on_idle`. */
  lemma {:induction false} TimeoutsAbove(pending: int, v: View, j: nat, rest: seq<Event>)
    requires j < pending
    ensures Replay(pending, Repeat(Timeout(v), j) + rest) == Replay(pending - j, rest)
    decreases j
  {
    if j > 0 {
      var events := Repeat(Timeout(v), j) + rest;
      assert events[0] == Timeout(v);
      assert events[1..] == Repeat(Timeout(v), j - 1) + rest;
      assert Replay(pending, events) == Replay(pending - 1, events[1..]);
      TimeoutsAbove(pending - 1, v, j - 1, rest);
    } else {
      assert Repeat(Timeout(v), j) + rest == rest;
    }
  }

  /** k timeouts of view v delivered to a counter of exactly k call `on_idle` once, on v,
      with the last one. */
  lemma {:induction false} TimeoutsDrain(v: View, k: nat)
    requires k > 0
    ensures Replay(k, Repeat(Timeout(v), k)) == Replayed(0, [v])
  {
    assert Repeat(Timeout(v), k) == Repeat(Timeout(v), k - 1) + [Timeout(v)];
    TimeoutsAbove(k, v, k - 1, [Timeout(v)]);
  }

  /** A burst of k edits in one view followed by their k timeouts recomputes that view
      exactly once and leaves the counter at 0. */
  lemma {:induction false} BurstRecomputesOnce(v: View, k: nat)
    requires k > 0
    ensures Replay(0, Repeat(Modified(v, true), k) + Repeat(Timeout(v), k)) == Replayed(0, [v])
  {
    EditsThenRest(0, v, k, Repeat(Timeout(v), k));
    TimeoutsDrain(v, k);
  }

  /** The counter is shared by all views: m edits in view a, then n edits in view b within
      the delay, then all their timeouts, recompute only b. View a keeps its stale regions. */
  lemma {:induction false} OverlappingBurstsRecomputeOnlyLast(a: View, b: View, m: nat, n: nat)
    requires m > 0 && n > 0
    ensures Replay(0, Repeat(Modified(a, true), m) + Repeat(Modified(b, true), n)
                      + Repeat(Timeout(a), m) + Repeat(Timeout(b), n))
            == Replayed(0, [b])
    ensures a != b ==> a !in Replay(0, Repeat(Modified(a, true), m) + Repeat(Modified(b, true), n)
                                       + Repeat(Timeout(a), m) + Repeat(Timeout(b), n)).recomputed
  {
    var timeouts := Repeat(Timeout(a), m) + Repeat(Timeout(b), n);
    var events := Repeat(Modified(a, true), m) + Repeat(Modified(b, true), n)
                  + Repeat(Timeout(a), m) + Repeat(Timeout(b), n);
    assert events == Repeat(Modified(a, true), m) + (Repeat(Modified(b, true), n) + timeouts);
    EditsThenRest(0, a, m, Repeat(Modified(b, true), n) + timeouts);
    EditsThenRest(m, b, n, timeouts);
    TimeoutsAbove(m + n, a, m, Repeat(Timeout(b), n));
    TimeoutsDrain(b, n);
  }

  /** Edits made with as-you-type off change nothing and schedule nothing. */
  lemma {:induction false} DisabledEditsAreIgnored(pending: int, v: View, k: nat)
    ensures Replay(pending, Repeat(Modified(v, false), k)) == Replayed(pending, [])
    ensures Scheduled(Repeat(Modified(v, false), k)) == 0
    decreases k
  {
    if k > 0 {
      assert Repeat(Modified(v, false), k)[1..] == Repeat(Modified(v, false), k - 1);
      DisabledEditsAreIgnored(pending, v, k - 1);
    }
  }

  class HighlightWhenTypingListener {
    /** `self.pending`: the number of timeouts scheduled and not yet handled, over all
        views together. */
    var pending: int
    /** `self.highlightCore`. The source also reads the settings through it; here the
        settings are parameters, so it serves only `clear`. */
    var highlightCore: HighlightChangesCore
    /** The views of the timeouts scheduled through `sublime.set_timeout` and not yet
        delivered, one entry per timeout. */
    ghost var outstanding: multiset<View>

    ghost predicate Valid()
      reads this
    {
      pending == |outstanding|
    }

    constructor ()
      ensures Valid() && pending == 0 && outstanding == multiset{}
      ensures fresh(highlightCore)
    {
      pending := 0;
      highlightCore := new HighlightChangesCore();
      outstanding := multiset{};
    }

    /** `on_modified` in `view`. `asYouType` and `delay` are the `highlight_as_you_type`
        and `highlight_delay` settings read at this call; the result is the delay passed to
        `sublime.set_timeout`, `None` when no timeout is scheduled. */
    method OnModified(view: View, asYouType: bool, delay: int) returns (scheduled: Option<int>)
      requires Valid()
      modifies this`pending, this`outstanding
      ensures Valid()
      ensures pending == AfterModified(old(pending), asYouType)
      ensures scheduled == if asYouType then Some(delay) else None
      ensures outstanding == old(outstanding) + if asYouType then multiset{view} else multiset{}
    {
      scheduled := None;
      if asYouType {
        pending := pending + 1;
        scheduled := Some(delay);
        outstanding := outstanding + multiset{view};
      }
    }

    /** `handle_timeout(view)`, delivered by the host for one outstanding timeout of `view`.
        The result is the view on which `on_idle` ran, that is the view asked to run
        "highlightchanges", or `None`. */
    method HandleTimeout(view: View) returns (idled: Option<View>)
      requires Valid() && view in outstanding
      modifies this`pending, this`outstanding
      ensures Valid()
      ensures pending == AfterTimeout(old(pending)).pending
      ensures idled == if AfterTimeout(old(pending)).idle then Some(view) else None
      ensures outstanding == old(outstanding) - multiset{view}
      ensures idled.Some? <==> outstanding == multiset{}
    {
      pending := pending - 1;
      outstanding := outstanding - multiset{view};
      idled := None;
      if pending == 0 {
        idled := Some(view);
      }
    }

    /** `on_post_save`: clears the editor's regions through the listener's core. */
    method OnPostSave() returns (sent: seq<Region>)
      ensures sent == []
    {
      sent := highlightCore.Clear();
    }
  }
}
