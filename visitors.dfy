/**
 * The visitors the merge engine calls back during one merge call: the base
 * visitor delegates validity checks and merges to an optional tracker; the
 * history visitor additionally records every merge.
 */
module Visitors {
  import opened Wrappers
  import opened UnmergeSpec
  import opened Unmerge
  import opened MergeReplay

  class RegionMergingVisitor {
    var tracker: UnmergeTracker?

    constructor ()
      ensures tracker == null
    {
      tracker := null;
    }

    ghost predicate Valid()
      reads this, tracker
    {
      tracker != null ==> tracker.Valid()
    }

    /** The tracker's tables, if a tracker is set. */
    function TrackerModel(): Option<TrackerState>
      reads this, tracker
    {
      if tracker == null then None else Some(tracker.Model())
    }

    /** Diagnostic callbacks: they change nothing (no modifies clause). */
    method OnPop(e: EdgeId, score: Score)
      ensures unchanged(this)
    {
    }

    method OnDeletedEdgeFound(e: EdgeId)
      ensures unchanged(this)
    {
    }

    method OnStaleEdgeFound(e: EdgeId, oldScore: Score, newScore: Score)
      ensures unchanged(this)
    {
    }

    /** Forwards the merge to the tracker, if one is set. */
    method OnMerge(a: SegId, b: SegId, c: SegId, score: Score)
      requires Valid()
      requires tracker != null && !tracker.isEmpty ==> c == a || c == b
      modifies tracker
      ensures Valid()
      ensures TrackerModel() == if old(TrackerModel()).Some? then Some(AfterMerge(old(TrackerModel()).value, a, b, c)) else None
    {
      if tracker != null {
        tracker.OnMerge(a, b, c);
      }
    }

    /** Asks the tracker, if one is set; true otherwise. */
    method IsValidMerge(a: SegId, b: SegId) returns (ok: bool)
      requires Valid()
      ensures ok <==> tracker == null || Allowed(tracker.Model(), a, b)
    {
      if tracker != null {
        ok := tracker.IsValidMerge(a, b);
        return;
      }
      return true;
    }

    method SetUnmergeTracker(t: UnmergeTracker?)
      modifies this
      ensures tracker == t
    {
      tracker := t;
    }
  }

  /** Extends the base visitor (held as `base`) with a merge history. */
  class MergeHistoryVisitor {
    var history: seq<Merge>
    const base: RegionMergingVisitor

    constructor ()
      ensures history == [] && fresh(base) && base.tracker == null
    {
      history := [];
      base := new RegionMergingVisitor();
    }

    ghost predicate Valid()
      reads this, base, base.tracker
    {
      base.Valid()
    }

    function Model(): VisitorState
      reads this, base, base.tracker
    {
      VisitorState(history, base.TrackerModel())
    }

    /** Appends exactly one record, then forwards to the base visitor. */
    method OnMerge(a: SegId, b: SegId, c: SegId, score: Score)
      requires Valid()
      requires base.tracker != null && !base.tracker.isEmpty ==> c == a || c == b
      modifies this, base.tracker
      ensures Valid() && base.tracker == old(base.tracker)
      ensures Model() == Merged(old(Model()), a, b, c, score)
    {
      history := history + [Merge(a, b, c, score)];
      base.OnMerge(a, b, c, score);
    }
  }

  /** Drives the visitor through one engine call's callbacks; returns the
      number of merges carried out, as the engine does. */
  method RunEngine(visitor: MergeHistoryVisitor, events: seq<EngineEvent>) returns (merged: nat)
    requires visitor.Valid()
    requires WellFormedRun(events)
    modifies visitor, visitor.base.tracker
    ensures visitor.Valid() && visitor.base.tracker == old(visitor.base.tracker)
    ensures visitor.Model() == Replay(old(visitor.Model()), events)
    ensures |visitor.history| == |old(visitor.history)| + merged
  {
    merged := 0;
    var i := 0;
    while i < |events|
      invariant 0 <= i <= |events|
      invariant visitor.Valid() && visitor.base.tracker == old(visitor.base.tracker)
      invariant visitor.Model() == Replay(old(visitor.Model()), events[..i])
      invariant |visitor.history| == |old(visitor.history)| + merged
    {
      assert events[..i + 1][..i] == events[..i];
      match events[i] {
        case Pop(e, score) =>
          visitor.base.OnPop(e, score);
        case DeletedEdgeFound(e) =>
          visitor.base.OnDeletedEdgeFound(e);
        case StaleEdgeFound(e, oldScore, newScore) =>
          visitor.base.OnStaleEdgeFound(e, oldScore, newScore);
        case Propose(a, b, c, score) =>
          var ok := visitor.base.IsValidMerge(a, b);
          if ok {
            visitor.OnMerge(a, b, c, score);
            merged := merged + 1;
          }
      }
      i := i + 1;
    }
    assert events[..i] == events;
  }
}
