# waterz agglomeration front end, modelled in Dafny

This project models the front end of waterz's hierarchical region agglomeration
(`waterz/frontend_agglomerate.h` and `waterz/frontend_agglomerate.cpp`):

- the **merge-constraint tracker** (`UnmergeTracker`). It keeps two tables built from caller-declared
  mutual-exclusion families: segment id -> group ids, and group id -> excluded group ids.
  It vetoes merges across excluded groups and passes memberships on to the surviving segment of every merge;
- the **session registry** (`WaterzContext`): a process-wide table from an integer handle to a session, with a
  counter that never hands out an id twice;
- the **merge visitors** (`RegionMergingVisitor`, `MergeHistoryVisitor`). They record one `Merge` per accepted merge
  and delegate validity checks to the optional tracker;
- the session entry points `initialize`, `mergeUntil` and `free`. This includes the voxel-count histogram built
  when the caller supplies its own labelling.

Layout:

- `unmerge_spec.dfy` (module `UnmergeSpec`) holds the tracker as values: `Build` (what the constructor fills in),
  `Allowed` (the answer of `isValidMerge`), `AfterMerge` (what `onMerge` leaves) and the lemmas about them.
  `Lookup`, `GroupsOf` and `AntiOf` model `getGroupIDs` and `getAntiGroupIDs` (frontend_agglomerate.h:242-252):
  an absent key leaves the caller's list as it was, which is what lets `isValidMerge` carry its buffer over.
- `unmerge_tracker.dfy` (module `Unmerge`) holds the class `UnmergeTracker`. Its loops are proved against `UnmergeSpec`.
- `merge_replay.dfy` (module `MergeReplay`) holds the merge record and the engine's callback stream. `Replay` gives
  the visitor state after one engine call; the constraint-soundness lemmas are stated over it.
- `visitors.dfy` (module `Visitors`) holds the two visitor classes and `RunEngine`, which feeds one engine call's
  callbacks to a visitor.
- `contexts.dfy` (module `Contexts`) holds the session object and the registry class.
- `label_counts.dfy` (module `LabelCounts`) holds the largest label, the counting loop and its histogram specification.
- `frontend.dfy` (module `Frontend`) holds `Initialize`, `MergeUntil` and `Free`, plus a worked example of constraints
  across calls.
- `wrappers.dfy` (module `Wrappers`) holds `Option`.

Behaviour worth knowing, as the code has it:

- A new tracker is built from the stored families at the start of **every** `mergeUntil` call
  (`frontend_agglomerate.cpp:124-127`). A survivor inherits its parts' exclusions only until that call ends.
  A pair refused only because a survivor inherited a group in one call is no longer refused in the next call.
  It merges there only if the engine proposes it again; whether the engine re-queues a refused edge is not
  part of this model. `Frontend.ConstraintsForgottenAcrossCalls` shows this on three regions. Segments that
  are themselves in distinct groups of one family stay refused in every call, because each fresh tracker
  refuses them (`UnmergeSpec.BuildForbidsSameFamily`). The model follows the code here, not the expectation that memberships grow for the whole session.
- `isValidMerge` tests whether a group of `b` is in the exclusion list of a group of `a`.
  Exclusions are built symmetrically, so the answer does not depend on argument order (`UnmergeSpec.AllowedSymmetric`).
- `isValidMerge` declares its exclusion-list buffer outside the loop. It overwrites the buffer only when the group
  has an entry, so a stale list could in principle be reused. The model keeps this code shape. The carried-over list
  is never used, because every group a segment belongs to has an exclusion entry (`UnmergeSpec.Consistent`).
- An empty coherent group, an unknown handle passed to `mergeUntil`, a null `unmergeList` passed to `initialize`,
  and an empty volume passed to `initialize` without seeding (the largest element of an empty range is dereferenced)
  are undefined behaviour in the code. They are preconditions here, not error results.

## Model

| member | source | states |
|---|---|---|
| `UnmergeSpec.Firsts` | waterz/frontend_agglomerate.h:143-150 | a family's group ids: one per coherent group, in order, each the group's first segment |
| `UnmergeSpec.Others` | waterz/frontend_agglomerate.h:160-165 | an id is in the result exactly when it is in the family's ids and differs from the given group |
| `UnmergeSpec.AddMemberSpec` | waterz/frontend_agglomerate.h:152-155 | after one group's loop, a segment holds the group exactly when it held it before or lies in that group |
| `UnmergeSpec.FamilyGroupsSpec` | waterz/frontend_agglomerate.h:143-157 | after one family, a segment's groups are its earlier groups plus the groups of that family containing it |
| `UnmergeSpec.BuildMembership` | waterz/frontend_agglomerate.h:140-157 | in the built tracker, segment x belongs to group h exactly when some family has a coherent group that contains x and is named h |
| `UnmergeSpec.ExtendAntiSpec` | waterz/frontend_agglomerate.h:159-170 | after one family, each of its groups has an entry and excludes exactly the earlier ids plus the family's other ids |
| `UnmergeSpec.BuildExclusionKeys` | waterz/frontend_agglomerate.h:159-170 | exactly the group ids named by some family get an exclusion entry |
| `UnmergeSpec.BuildExclusion` | waterz/frontend_agglomerate.h:140-171 | group g excludes h exactly when some family names both and g differs from h, accumulated across families |
| `UnmergeSpec.BuildConsistent` | waterz/frontend_agglomerate.h:127-173 | the built tracker: each held group has an exclusion entry, exclusion is symmetric, and no group excludes itself |
| `UnmergeSpec.BuildForbidsSameFamily` | waterz/frontend_agglomerate.h:140-214 | segments in two differently named coherent groups of one family are refused by the built tracker |
| `UnmergeSpec.BuildAllowedIff` | waterz/frontend_agglomerate.h:127-214 | for any family list, including none, a merge is allowed exactly when no group of a and group of b are distinct groups of one family |
| `UnmergeSpec.EmptyInputAllowsEverything` | waterz/frontend_agglomerate.h:135-138 | no families gives an empty tracker: every merge is allowed and onMerge changes nothing |
| `UnmergeSpec.AllowedSymmetric` | waterz/frontend_agglomerate.h:175-214 | on a consistent tracker, isValidMerge(a, b) equals isValidMerge(b, a) |
| `UnmergeSpec.UngroupedAlwaysAllowed` | waterz/frontend_agglomerate.h:181-213 | a segment that belongs to no group may merge with anything, in either order |
| `UnmergeSpec.MergeTouchesOnlySurvivor` | waterz/frontend_agglomerate.h:216-234 | onMerge keeps the exclusion table, the empty flag and every other segment's list, including the retired one's |
| `UnmergeSpec.MergeUnitesMemberships` | waterz/frontend_agglomerate.h:222-231 | afterwards the survivor belongs to exactly the groups of a and of b |
| `UnmergeSpec.MembershipNeverShrinks` | waterz/frontend_agglomerate.h:216-234 | no segment loses a group through onMerge |
| `UnmergeSpec.MergeKeepsConsistent` | waterz/frontend_agglomerate.h:216-234 | onMerge preserves the tracker's consistency |
| `UnmergeSpec.ConflictPersists` | waterz/frontend_agglomerate.h:175-234 | a pair refused before a merge is still refused after it |
| `UnmergeSpec.SurvivorInheritsConflicts` | waterz/frontend_agglomerate.h:175-234 | the survivor is refused with every segment that either merged part was refused with |
| `Unmerge.UnmergeTracker.constructor` | waterz/frontend_agglomerate.h:127-173 | the nested loops fill both tables exactly as `Build` says; the result is consistent |
| `Unmerge.UnmergeTracker.AddFamilyMembers` | waterz/frontend_agglomerate.h:142-157 | one family's loop appends each group id to each member and returns the family's group ids |
| `Unmerge.UnmergeTracker.AddFamilyExclusions` | waterz/frontend_agglomerate.h:159-170 | one family's loop extends each group's exclusion list with the family's other group ids |
| `Unmerge.UnmergeTracker.OtherGroups` | waterz/frontend_agglomerate.h:161-165 | the inner loop collects the family's ids other than the current group, in order |
| `Unmerge.UnmergeTracker.IsValidMerge` | waterz/frontend_agglomerate.h:175-214 | true on an empty tracker; otherwise false exactly when some group of b is excluded by some group of a; changes nothing |
| `Unmerge.UnmergeTracker.OnMerge` | waterz/frontend_agglomerate.h:216-234 | the survivor's list becomes a's list followed by b's when that is non-empty; nothing else changes; a no-op when empty |
| `MergeReplay.ReplayAppends` | waterz/frontend_agglomerate.h:286-296 | one engine call only appends to the history, at most one record per callback, each a proposed merge |
| `MergeReplay.ReplayWithoutTracker` | waterz/frontend_agglomerate.h:271-275 | without a tracker every proposed merge is accepted and recorded, in order |
| `MergeReplay.ReplayKeepsConsistent` | waterz/frontend_agglomerate.h:266-269 | a set tracker stays set and consistent through a whole engine call |
| `MergeReplay.ExcludedPairNeverMerged` | waterz/frontend_agglomerate.h:266-275 | a pair the tracker refuses is refused for the rest of the call and never appears, in either order, as a merge record |
| `Visitors.RegionMergingVisitor.constructor` | waterz/frontend_agglomerate.h:281-283 | a new visitor has no tracker |
| `Visitors.RegionMergingVisitor.OnPop` | waterz/frontend_agglomerate.h:260 | changes nothing |
| `Visitors.RegionMergingVisitor.OnDeletedEdgeFound` | waterz/frontend_agglomerate.h:262 | changes nothing |
| `Visitors.RegionMergingVisitor.OnStaleEdgeFound` | waterz/frontend_agglomerate.h:264 | changes nothing |
| `Visitors.RegionMergingVisitor.OnMerge` | waterz/frontend_agglomerate.h:266-269 | forwards the merge to the tracker when one is set; otherwise changes nothing |
| `Visitors.RegionMergingVisitor.IsValidMerge` | waterz/frontend_agglomerate.h:271-275 | true without a tracker; otherwise the tracker's answer |
| `Visitors.RegionMergingVisitor.SetUnmergeTracker` | waterz/frontend_agglomerate.h:277-279 | stores the given tracker |
| `Visitors.MergeHistoryVisitor.constructor` | waterz/frontend_agglomerate.h:290 | starts with an empty history and a base visitor without a tracker |
| `Visitors.MergeHistoryVisitor.OnMerge` | waterz/frontend_agglomerate.h:292-296 | appends exactly one record {a, b, c, score}, then applies the tracker's onMerge when one is set |
| `Visitors.RunEngine` | waterz/frontend_agglomerate.cpp:129-133 | the visitor ends in the state `Replay` gives; the returned count equals the number of records appended |
| `Contexts.Context.constructor` | waterz/frontend_agglomerate.h:98-110 | a new session has its id and no buffers, ground truth or constraint families |
| `Contexts.Registry.constructor` | waterz/frontend_agglomerate.cpp:13-14 | the table starts empty and the counter at zero |
| `Contexts.Registry.CreateNew` | waterz/frontend_agglomerate.h:69-77 | the new session's id is the old counter, which is not yet in the table; the counter grows by one and the table gains exactly that entry; `Get` of the new id yields the new session and every other id looks up as before |
| `Contexts.Registry.Get` | waterz/frontend_agglomerate.h:79-85 | non-null exactly for a registered id; in a valid table the session found carries that id, which is below the counter, so it was handed out by an earlier `createNew` |
| `Contexts.Registry.Free` | waterz/frontend_agglomerate.h:87-96 | removes only that entry when present; an unknown id changes nothing; the counter is kept; afterwards the id looks up to null and every other id looks up as before |
| `LabelCounts.MaxLabel` | waterz/frontend_agglomerate.cpp:53 | a label of the volume that no label exceeds |
| `LabelCounts.HistogramTotal` | waterz/frontend_agglomerate.cpp:54-56 | when all labels are below the histogram's length, its entries sum to the number of voxels |
| `LabelCounts.CountLabels` | waterz/frontend_agglomerate.cpp:53-56 | the counts are a new array, have length largest label + 1, and entry k is the number of voxels labelled k |
| `LabelCounts.CountsCoverAllVoxels` | waterz/frontend_agglomerate.cpp:53-56 | the counts of a non-empty labelling, one per label up to the largest, sum to the number of voxels |
| `Frontend.Initialize` | waterz/frontend_agglomerate.cpp:16-110 | registers exactly one new session under the returned handle and leaves other sessions alone; records the region-graph size and largest id, the buffer, the ground truth only when given, and the families |
| `Frontend.MergeUntil` | waterz/frontend_agglomerate.cpp:112-157 | the history is one engine call replayed from a tracker built afresh from the stored families, or none; the buffer is re-extracted only when something merged; metrics are written only with ground truth |
| `Frontend.Free` | waterz/frontend_agglomerate.cpp:169-173 | removes the handle's session from the table and nothing else; the id counter is kept, so a later `initialize` never reuses the freed id |
| `Frontend.ConstraintsForgottenAcrossCalls` | waterz/frontend_agglomerate.cpp:124-127 | on three regions, the pair (1, 2) is refused after 0 merged into 1, and is accepted as the first proposal of the next call; the general fact is `Frontend.MergeUntil`'s tie of every call's history to a freshly built tracker |

## Left out

- The merge engine is not modelled: priority queue, region graph, edge statistics and scoring (`IterativeRegionMerging`
  and the other backend headers). One engine call is the sequence of visitor callbacks it issues, given as a parameter.
  A proposed merge is carried out exactly when the visitor admits it. The `threshold` argument only selects that sequence.
- Seeding by watershed is an external collaborator. Its labelling and per-label sizes are a parameter, and
  `affThresholdLow`/`affThresholdHigh` are not used.
- Segment extraction (`extractSegmentation`) belongs to the engine. Its labelling is a parameter that is written to the
  buffer when something merged.
- `compare_volumes` is a foreign floating-point function. Its result is a parameter, and metrics are carried, not computed.
- `getRegionGraph` (frontend_agglomerate.cpp:159-167) only delegates to the engine's `extractRegionGraph`.
- The buffer views over caller memory are not modelled as views. The segmentation is an array shared with the
  session; the ground truth is a value. Aliasing between caller memory and other buffers is not modelled.
- Logging, `shared_ptr` ownership, `delete` of sessions and the leaked per-call tracker are not modelled.
- Concurrency is not modelled: the session table has no locking.
- Scores and metrics are `float`/`double` in the code. Here they are `real` values that are only carried, never computed.
- Segment ids (`uint64_t`) are unbounded naturals. `_nextId` (`int`) is unbounded, so its overflow after 2^31 sessions
  is not modelled. The product `width*height*depth` is not checked for `size_t` overflow.
- `Frontend.Initialize`: requires every caller label to be below 2^64-1. With label 2^64-1, `maxId + 1` wraps to 0
  and the counting loop writes out of bounds. It also requires the seeding's size count to fit `size_t`.
  Without seeding it requires a non-empty volume: the code dereferences `std::max_element` of an empty range
  (frontend_agglomerate.cpp:53).
  The largest id passed to region-graph construction is modelled as `size_t` arithmetic.
- `Frontend.Initialize`: does not state the backend objects it creates (region merging, scoring, statistics). Only the
  region graph's node count and largest id are recorded.
- `Frontend.MergeUntil`: does not state the engine's state carried between calls. The engine is represented only by
  the callback stream of the current call.
- `RegionMergingVisitor`'s subclass `MergeHistoryVisitor` holds its base visitor as the field `base`, because Dafny has
  no class inheritance. The C++ history vector held by reference is the visitor's `history` field, which `MergeUntil`
  returns.
- Uninitialised metrics in a fresh `WaterzState` are `None`.
