/**
 * The session entry points: create a session from the caller's volumes,
 * merge until a threshold, and release the session.
 *
 * Seeding (watershed), the merge engine, segment extraction and the
 * ground-truth comparison run outside this model; their results are
 * parameters.
 */
module Frontend {
  import opened Wrappers
  import opened UnmergeSpec
  import opened Unmerge
  import opened MergeReplay
  import opened Visitors
  import opened Contexts
  import opened LabelCounts

  /** Variation of information and Rand scores against ground truth. */
  datatype Metrics = Metrics(voiSplit: real, voiMerge: real, randSplit: real, randMerge: real)

  /** The caller's handle: a session id and the metrics last written
      (`None` while never written). */
  datatype WaterzState = WaterzState(context: int, metrics: Option<Metrics>)

  /** What the seeding collaborator produces: a labelling written over the
      caller's buffer and the voxel count of each label. */
  datatype Seeding = Seeding(labels: seq<nat>, sizes: seq<nat>)

  /** Largest value of a 64-bit `size_t`. */
  const SizeMax: int := 0xFFFF_FFFF_FFFF_FFFF

  /** The tracker a merge call starts from: built afresh from the stored
      families, or none when there are none. */
  function InitialTracker(unmergeList: UnmergeList): Option<TrackerState>
    requires WellFormed(unmergeList)
  {
    if |unmergeList| > 0 then Some(Build(unmergeList)) else None
  }

  /** Creates and registers exactly one session. Without seeding, the region
      graph gets one node per label up to the largest label. */
  method Initialize(registry: Registry, width: nat, height: nat, depth: nat,
                    segmentation: array<nat>, groundtruth: Option<seq<nat>>,
                    findFragments: bool, seeding: Seeding, unmergeList: Option<UnmergeList>)
    returns (state: WaterzState)
    requires registry.Valid()
    requires segmentation.Length == width * height * depth
    requires groundtruth.Some? ==> |groundtruth.value| == segmentation.Length
    requires findFragments ==> |seeding.labels| == segmentation.Length && |seeding.sizes| <= SizeMax
    requires !findFragments ==> segmentation.Length > 0
    requires !findFragments ==> forall i :: 0 <= i < segmentation.Length ==> segmentation[i] < SizeMax
    requires unmergeList.Some?
    modifies registry, segmentation
    ensures registry.Valid()
    ensures state == WaterzState(old(registry.nextId), None)
    ensures registry.nextId == old(registry.nextId) + 1
    ensures registry.contexts.Keys == old(registry.contexts.Keys) + {state.context}
    ensures forall id :: id in old(registry.contexts) ==> registry.contexts[id] == old(registry.contexts[id])
    ensures segmentation[..] == if findFragments then seeding.labels else old(segmentation[..])
    ensures var c := registry.contexts[state.context];
            && fresh(c)
            && c.numNodes == (if findFragments then |seeding.sizes| else MaxLabel(old(segmentation[..])) + 1)
            && (c.numNodes > 0 ==> c.maxId == c.numNodes - 1)
            && (c.numNodes == 0 ==> c.maxId == SizeMax)
            && c.segmentation == segmentation
            && c.groundtruth == groundtruth
            && c.unmergeList == unmergeList.value
  {
    var numNodes: nat;
    if findFragments {
      // the seeding collaborator labels the buffer in place
      forall i | 0 <= i < segmentation.Length {
        segmentation[i] := seeding.labels[i];
      }
      numNodes := |seeding.sizes|;
    } else {
      var sizes := CountLabels(segmentation);
      numNodes := sizes.Length;
      assert MaxLabel(segmentation[..]) in segmentation[..];
    }
    var context := registry.CreateNew();
    context.numNodes := numNodes;
    context.maxId := (numNodes - 1) % (SizeMax + 1);
    context.segmentation := segmentation;
    state := WaterzState(context.id, None);
    if groundtruth.Some? {
      context.groundtruth := groundtruth;
    }
    context.unmergeList := unmergeList.value;
  }

  /** One merge call on a live session. A fresh tracker is built from the
      stored families on every call; the segmentation is re-extracted only
      when something merged; metrics are written only with ground truth. The
      engine's run at `threshold` is the callback stream `run`. */
  method MergeUntil(registry: Registry, state: WaterzState, threshold: Score,
                    run: seq<EngineEvent>, extracted: seq<nat>, comparison: Metrics)
    returns (history: seq<Merge>, state': WaterzState)
    requires registry.Get(state.context) != null
    requires registry.Get(state.context).segmentation != null
    requires WellFormed(registry.Get(state.context).unmergeList)
    requires WellFormedRun(run)
    requires |extracted| == registry.Get(state.context).segmentation.Length
    modifies registry.Get(state.context).segmentation
    ensures var c := registry.Get(state.context);
            && history == Replay(VisitorState([], InitialTracker(c.unmergeList)), run).history
            && c.segmentation[..] == (if |history| > 0 then extracted else old(c.segmentation[..]))
            && state' == state.(metrics := if c.groundtruth.Some? then Some(comparison) else state.metrics)
  {
    var context := registry.Get(state.context);
    var visitor := new MergeHistoryVisitor();
    if |context.unmergeList| > 0 {
      var tracker := new UnmergeTracker(context.unmergeList);
      visitor.base.SetUnmergeTracker(tracker);
    }
    var merged := RunEngine(visitor, run);
    if merged > 0 {
      var buffer := context.segmentation;
      forall i | 0 <= i < buffer.Length {
        buffer[i] := extracted[i];
      }
    }
    state' := state;
    if context.groundtruth.Some? {
      state' := state'.(metrics := Some(comparison));
    }
    history := visitor.history;
  }

  /** Releases the session behind the handle. */
  method Free(registry: Registry, state: WaterzState)
    requires registry.Valid()
    modifies registry
    ensures registry.Valid()
    ensures registry.contexts == old(registry.contexts) - {state.context}
    ensures registry.nextId == old(registry.nextId)
    ensures registry.Get(state.context) == null
  {
    registry.Free(state.context);
  }

  /** The families of the example below: region 0's group excludes region 2's group. */
  function ExampleFamilies(): (list: UnmergeList)
    ensures WellFormed(list)
  {
    [[[0], [2]]]
  }

  lemma ExampleTracker()
    ensures var t := Build(ExampleFamilies());
            && !t.empty && 0 in GroupsOf(t, 0) && GroupsOf(t, 1) == [] && 2 in GroupsOf(t, 2) && 2 in AntiOf(t, 0)
  {
    var list := ExampleFamilies();
    var t := Build(list);
    assert list[0][0] == [0] && list[0][1] == [2];
    assert InFamily(list[0], 0, 0) && InFamily(list[0], 2, 2);
    BuildMembership(list, 0, 0);
    BuildMembership(list, 2, 2);
    if GroupsOf(t, 1) != [] {
      BuildMembership(list, 1, GroupsOf(t, 1)[0]);
      assert false;
    }
    assert Firsts(list[0]) == [0, 2];
    BuildExclusion(list, 0, 2);
    assert ExcludedBy(list, 0, 2);
  }

  /** Because every merge call starts from a fresh tracker, exclusions that a
      merge passed on to a survivor hold only until the end of that call.
      Merging 0 into 1 and then proposing 1 with 2 is refused within one
      call, but the same proposal in the next call is accepted, joining 0
      and 2. */
  lemma ConstraintsForgottenAcrossCalls()
    ensures var start := VisitorState([], InitialTracker(ExampleFamilies()));
            && Replay(start, [Propose(0, 1, 1, 0.2), Propose(1, 2, 2, 0.8)]).history == [Merge(0, 1, 1, 0.2)]
            && Replay(start, [Propose(1, 2, 2, 0.8)]).history == [Merge(1, 2, 2, 0.8)]
  {
    ExampleTracker();
    var t := Build(ExampleFamilies());
    var start := VisitorState([], InitialTracker(ExampleFamilies()));
    assert start.tracker == Some(t);
    var p1 := Propose(0, 1, 1, 0.2);
    var p2 := Propose(1, 2, 2, 0.8);
    // one call: the second proposal inherits 0's exclusion and is refused
    assert Allowed(t, 0, 1);
    var v1 := Step(start, p1);
    assert [p1, p2][..1] == [p1] && [p1][..0] == [];
    assert Replay(start, [p1]) == v1;
    var t1 := v1.tracker.value;
    assert 0 in GroupsOf(t1, 1) && 2 in GroupsOf(t1, 2) && 2 in AntiOf(t1, 0);
    assert !Allowed(t1, 1, 2);
    assert Replay(start, [p1, p2]) == v1;
    // next call: a fresh tracker knows nothing about region 1
    assert Allowed(t, 1, 2);
    assert [p2][..0] == [];
  }
}
