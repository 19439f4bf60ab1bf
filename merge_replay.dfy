/**
 * The merge-history visitor as pure values, and the callback stream of the
 * merge engine that drives it.
 *
 * The engine itself (queue, region graph, scoring) is not part of this
 * model. One call of the engine is represented by the sequence of callbacks
 * it issues; a proposed merge is carried out exactly when the visitor's
 * validity check admits it.
 */
module MergeReplay {
  import opened Wrappers
  import opened UnmergeSpec

  type EdgeId = nat
  /** Scores are single-precision floats in the source; here they are only carried. */
  type Score = real

  /** One accepted merge: `a` and `b` were merged, `c` survives. */
  datatype Merge = Merge(a: SegId, b: SegId, c: SegId, score: Score)

  /** One callback of the merge engine to its visitor. */
  datatype EngineEvent =
    | Pop(edge: EdgeId, score: Score)
    | DeletedEdgeFound(edge: EdgeId)
    | StaleEdgeFound(edge: EdgeId, oldScore: Score, newScore: Score)
    | Propose(a: SegId, b: SegId, c: SegId, score: Score)

  /** The engine names one of the two merged regions as the survivor. */
  predicate WellFormedRun(events: seq<EngineEvent>) {
    forall i :: 0 <= i < |events| && events[i].Propose? ==> events[i].c == events[i].a || events[i].c == events[i].b
  }

  /** The visitor's state: the merge history so far and the tracker, if one is set. */
  datatype VisitorState = VisitorState(history: seq<Merge>, tracker: Option<TrackerState>)

  /** The visitor's validity check: true without a tracker. */
  predicate Admits(tracker: Option<TrackerState>, a: SegId, b: SegId) {
    tracker.None? || Allowed(tracker.value, a, b)
  }

  /** The visitor's merge callback: one record, then the tracker's update. */
  function Merged(v: VisitorState, a: SegId, b: SegId, c: SegId, score: Score): VisitorState {
    VisitorState(
      v.history + [Merge(a, b, c, score)],
      if v.tracker.Some? then Some(AfterMerge(v.tracker.value, a, b, c)) else None)
  }

  /** One engine callback; only an admitted proposal changes the visitor. */
  function Step(v: VisitorState, e: EngineEvent): VisitorState {
    match e
    case Propose(a, b, c, score) => if Admits(v.tracker, a, b) then Merged(v, a, b, c, score) else v
    case _ => v
  }

  /** One whole engine call. */
  function Replay(v: VisitorState, events: seq<EngineEvent>): VisitorState {
    if events == [] then v
    else Step(Replay(v, events[..|events| - 1]), events[|events| - 1])
  }

  /** Every proposal of a run, as a merge record. */
  function Proposals(events: seq<EngineEvent>): seq<Merge> {
    if events == [] then []
    else
      var e := events[|events| - 1];
      Proposals(events[..|events| - 1]) + if e.Propose? then [Merge(e.a, e.b, e.c, e.score)] else []
  }

  // ---------------------------------------------------------------------

  /** The history only grows, by at most one record per callback, and every
      new record is a proposal of the run. */
  lemma {:induction false} ReplayAppends(v: VisitorState, events: seq<EngineEvent>)
    ensures var r := Replay(v, events);
            && |v.history| <= |r.history| <= |v.history| + |events|
            && r.history[..|v.history|] == v.history
            && forall k :: |v.history| <= k < |r.history| ==> r.history[k] in Proposals(events)
  {
    if events != [] {
      var n := |events| - 1;
      ReplayAppends(v, events[..n]);
      var p := Replay(v, events[..n]);
      assert Proposals(events[..n]) <= Proposals(events);
      forall k | |v.history| <= k < |Replay(v, events).history|
        ensures Replay(v, events).history[k] in Proposals(events)
      {
        if k >= |p.history| {
          var e := events[n];
          assert Replay(v, events).history[k] == Merge(e.a, e.b, e.c, e.score);
        } else {
          assert Replay(v, events).history[k] == p.history[k];
        }
      }
    }
  }

  /** Without a tracker every proposal is merged, in order. */
  lemma {:induction false} ReplayWithoutTracker(v: VisitorState, events: seq<EngineEvent>)
    requires v.tracker.None?
    ensures Replay(v, events) == VisitorState(v.history + Proposals(events), None)
  {
    if events != [] {
      var n := |events| - 1;
      ReplayWithoutTracker(v, events[..n]);
      assert v.history + Proposals(events) == v.history + Proposals(events[..n]) +
        (if events[n].Propose? then [Merge(events[n].a, events[n].b, events[n].c, events[n].score)] else []);
    }
  }

  /** A tracker, once set, stays set and consistent through a run. */
  lemma {:induction false} ReplayKeepsConsistent(v: VisitorState, events: seq<EngineEvent>)
    requires v.tracker.Some? && Consistent(v.tracker.value)
    ensures Replay(v, events).tracker.Some?
    ensures Consistent(Replay(v, events).tracker.value)
  {
    if events != [] {
      var n := |events| - 1;
      ReplayKeepsConsistent(v, events[..n]);
      var p := Replay(v, events[..n]);
      var e := events[n];
      if e.Propose? {
        MergeKeepsConsistent(p.tracker.value, e.a, e.b, e.c);
      }
    }
  }

  /** Constraint soundness within one call: a pair the tracker rejects is
      rejected for the rest of the call and never appears, in either order,
      as a merge record of that call. */
  lemma {:induction false} ExcludedPairNeverMerged(v: VisitorState, events: seq<EngineEvent>, x: SegId, y: SegId)
    requires WellFormedRun(events)
    requires v.tracker.Some? && Consistent(v.tracker.value)
    requires !Allowed(v.tracker.value, x, y)
    ensures var r := Replay(v, events);
            && r.tracker.Some? && !Allowed(r.tracker.value, x, y)
            && forall k :: |v.history| <= k < |r.history| ==>
                 !(r.history[k].a == x && r.history[k].b == y) && !(r.history[k].a == y && r.history[k].b == x)
  {
    if events != [] {
      var n := |events| - 1;
      assert WellFormedRun(events[..n]);
      ExcludedPairNeverMerged(v, events[..n], x, y);
      ReplayKeepsConsistent(v, events[..n]);
      var p := Replay(v, events[..n]);
      var t := p.tracker.value;
      var e := events[n];
      if e.Propose? {
        AllowedSymmetric(t, x, y);
        if Admits(p.tracker, e.a, e.b) {
          assert !(e.a == x && e.b == y) && !(e.a == y && e.b == x);
          ConflictPersists(t, e.a, e.b, e.c, x, y);
        }
      }
    }
  }
}
