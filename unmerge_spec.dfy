/**
 * The merge-constraint ("unmerge") tracker as pure values.
 *
 * The caller declares mutual-exclusion families. Each family is a list of
 * coherent groups, each group a list of segment ids whose first element names
 * the group. The tracker keeps two tables: segment id -> groups it belongs to,
 * and group id -> groups it must never be merged with.
 */
module UnmergeSpec {

  /** Segment ids and group ids are both 64-bit segment ids in the source. */
  type SegId = nat
  type GroupId = nat

  /** A coherent group; its first element is the group id. */
  type Group = seq<SegId>
  /** One mutual-exclusion family of coherent groups. */
  type Family = seq<Group>
  /** The whole constraint input: a list of independent families. */
  type UnmergeList = seq<Family>

  datatype TrackerState = TrackerState(
    empty: bool,
    groups: map<SegId, seq<GroupId>>,
    anti: map<GroupId, seq<GroupId>>)

  /** Every coherent group is non-empty: the tracker reads its first element. */
  predicate WellFormed(input: UnmergeList) {
    forall i, j :: 0 <= i < |input| && 0 <= j < |input[i]| ==> input[i][j] != []
  }

  /** Lookup into one of the two tables: the stored list when the key is
      present, otherwise the caller's list left as it was. */
  function Lookup(m: map<nat, seq<nat>>, key: nat, current: seq<nat>): seq<nat> {
    if key in m then m[key] else current
  }

  function GroupsOf(t: TrackerState, s: SegId): seq<GroupId> {
    Lookup(t.groups, s, [])
  }

  function AntiOf(t: TrackerState, g: GroupId): seq<GroupId> {
    Lookup(t.anti, g, [])
  }

  /** The group ids of one family, in order. */
  function Firsts(family: Family): (ids: seq<GroupId>)
    requires forall j :: 0 <= j < |family| ==> family[j] != []
    ensures |ids| == |family|
    ensures forall j :: 0 <= j < |family| ==> ids[j] == family[j][0]
  {
    if family == [] then [] else Firsts(family[..|family| - 1]) + [family[|family| - 1][0]]
  }

  /** The ids of `ids` other than `g`, in order. */
  function Others(ids: seq<GroupId>, g: GroupId): (r: seq<GroupId>)
    ensures forall x :: x in r <==> x in ids && x != g
  {
    if ids == [] then []
    else
      var n := |ids| - 1;
      assert ids == ids[..n] + [ids[n]];
      var r := Others(ids[..n], g);
      if ids[n] != g then r + [ids[n]] else r
  }

  /** Appends group `g` to the membership list of every segment of `segids`. */
  function AddMember(groups: map<SegId, seq<GroupId>>, segids: Group, g: GroupId): map<SegId, seq<GroupId>> {
    if segids == [] then groups
    else
      var m := AddMember(groups, segids[..|segids| - 1], g);
      var s := segids[|segids| - 1];
      m[s := Lookup(m, s, []) + [g]]
  }

  /** Membership updates of one family: each group, in order. */
  function FamilyGroups(groups: map<SegId, seq<GroupId>>, family: Family): map<SegId, seq<GroupId>>
    requires forall j :: 0 <= j < |family| ==> family[j] != []
  {
    if family == [] then groups
    else
      var n := |family| - 1;
      AddMember(FamilyGroups(groups, family[..n]), family[n], family[n][0])
  }

  /** Membership table built from all families, in order. */
  function InputGroups(input: UnmergeList): map<SegId, seq<GroupId>>
    requires WellFormed(input)
  {
    if input == [] then map[]
    else
      var n := |input| - 1;
      FamilyGroups(InputGroups(input[..n]), input[n])
  }

  /** Extends the exclusion list of every id of `ids` with the other ids of `all`. */
  function ExtendAnti(anti: map<GroupId, seq<GroupId>>, ids: seq<GroupId>, all: seq<GroupId>): map<GroupId, seq<GroupId>> {
    if ids == [] then anti
    else
      var m := ExtendAnti(anti, ids[..|ids| - 1], all);
      var g := ids[|ids| - 1];
      m[g := Lookup(m, g, []) + Others(all, g)]
  }

  /** Exclusion table built from all families, in order. */
  function InputAnti(input: UnmergeList): map<GroupId, seq<GroupId>>
    requires WellFormed(input)
  {
    if input == [] then map[]
    else
      var n := |input| - 1;
      var ids := Firsts(input[n]);
      ExtendAnti(InputAnti(input[..n]), ids, ids)
  }

  /** The tracker the constructor builds; an empty input gives the empty tracker. */
  function Build(input: UnmergeList): TrackerState
    requires WellFormed(input)
  {
    if |input| == 0 then TrackerState(true, map[], map[])
    else TrackerState(false, InputGroups(input), InputAnti(input))
  }

  /** Segment `x` lies in a coherent group named `h` of `family`. */
  ghost predicate InFamily(family: Family, x: SegId, h: GroupId)
    requires forall j :: 0 <= j < |family| ==> family[j] != []
  {
    exists j :: 0 <= j < |family| && x in family[j] && h == family[j][0]
  }

  /** Segment `x` lies in a coherent group named `h` of some family. */
  ghost predicate MemberOf(input: UnmergeList, x: SegId, h: GroupId)
    requires WellFormed(input)
  {
    exists i :: 0 <= i < |input| && InFamily(input[i], x, h)
  }

  /** Groups `g` and `h` are distinct groups of one family. */
  ghost predicate ExcludedBy(input: UnmergeList, g: GroupId, h: GroupId)
    requires WellFormed(input)
  {
    exists i :: 0 <= i < |input| && g in Firsts(input[i]) && h in Firsts(input[i]) && g != h
  }

  /** Some group of `a` lists some group of `b` as excluded. */
  predicate Conflict(t: TrackerState, a: SegId, b: SegId) {
    exists ga, gb :: ga in GroupsOf(t, a) && gb in GroupsOf(t, b) && gb in AntiOf(t, ga)
  }

  /** The answer of isValidMerge. */
  predicate Allowed(t: TrackerState, a: SegId, b: SegId) {
    t.empty || !Conflict(t, a, b)
  }

  /** The tracker after onMerge(a, b, c): survivor `c` belongs to the groups
      of both, unless both have none. */
  function AfterMerge(t: TrackerState, a: SegId, b: SegId, c: SegId): TrackerState {
    if t.empty then t
    else
      var merged := GroupsOf(t, a) + GroupsOf(t, b);
      if |merged| > 0 then t.(groups := t.groups[c := merged]) else t
  }

  /** What the construction guarantees and every merge keeps: each group a
      segment belongs to has an exclusion entry, exclusions are symmetric,
      and no group excludes itself. */
  ghost predicate Consistent(t: TrackerState) {
    && (forall s, g :: s in t.groups && g in t.groups[s] ==> g in t.anti)
    && (forall g, h :: g in t.anti && h in t.anti[g] ==> h in t.anti && g in t.anti[h])
    && (forall g :: g in t.anti ==> g !in t.anti[g])
  }

  // ---------------------------------------------------------------------
  // Construction

  lemma {:induction false} AddMemberSpec(m: map<SegId, seq<GroupId>>, segids: Group, g: GroupId, x: SegId, h: GroupId)
    ensures h in Lookup(AddMember(m, segids, g), x, []) <==> h in Lookup(m, x, []) || (x in segids && h == g)
  {
    if segids != [] {
      var n := |segids| - 1;
      AddMemberSpec(m, segids[..n], g, x, h);
      assert segids == segids[..n] + [segids[n]];
    }
  }

  lemma InFamilySnoc(family: Family, x: SegId, h: GroupId)
    requires forall j :: 0 <= j < |family| ==> family[j] != []
    requires family != []
    ensures var n := |family| - 1;
            InFamily(family, x, h) <==> InFamily(family[..n], x, h) || (x in family[n] && h == family[n][0])
  {
    var n := |family| - 1;
    var front := family[..n];
    if InFamily(family, x, h) {
      var j :| 0 <= j < |family| && x in family[j] && h == family[j][0];
      if j < n { assert front[j] == family[j]; }
    }
    if InFamily(front, x, h) {
      var j :| 0 <= j < |front| && x in front[j] && h == front[j][0];
      assert family[j] == front[j];
    }
  }

  lemma {:induction false} FamilyGroupsSpec(m: map<SegId, seq<GroupId>>, family: Family, x: SegId, h: GroupId)
    requires forall j :: 0 <= j < |family| ==> family[j] != []
    ensures h in Lookup(FamilyGroups(m, family), x, []) <==> h in Lookup(m, x, []) || InFamily(family, x, h)
  {
    if family != [] {
      var n := |family| - 1;
      FamilyGroupsSpec(m, family[..n], x, h);
      AddMemberSpec(FamilyGroups(m, family[..n]), family[n], family[n][0], x, h);
      InFamilySnoc(family, x, h);
    }
  }

  lemma MemberOfSnoc(input: UnmergeList, x: SegId, h: GroupId)
    requires WellFormed(input) && input != []
    ensures MemberOf(input, x, h) <==> MemberOf(input[..|input| - 1], x, h) || InFamily(input[|input| - 1], x, h)
  {
    var n := |input| - 1;
    var front := input[..n];
    if MemberOf(input, x, h) {
      var i :| 0 <= i < |input| && InFamily(input[i], x, h);
      if i < n { assert front[i] == input[i]; }
    }
    if MemberOf(front, x, h) {
      var i :| 0 <= i < |front| && InFamily(front[i], x, h);
      assert input[i] == front[i];
    }
  }

  /** Segment `x` belongs to group `h` exactly when `x` lies in a coherent group named `h`. */
  lemma {:induction false} BuildMembership(input: UnmergeList, x: SegId, h: GroupId)
    requires WellFormed(input)
    ensures h in GroupsOf(Build(input), x) <==> MemberOf(input, x, h)
  {
    if input != [] {
      var n := |input| - 1;
      var front := input[..n];
      BuildMembership(front, x, h);
      assert InputGroups(front) == Build(front).groups;
      FamilyGroupsSpec(InputGroups(front), input[n], x, h);
      MemberOfSnoc(input, x, h);
    }
  }

  lemma {:induction false} ExtendAntiSpec(m: map<GroupId, seq<GroupId>>, ids: seq<GroupId>, all: seq<GroupId>, g: GroupId, h: GroupId)
    ensures g in ExtendAnti(m, ids, all) <==> g in m || g in ids
    ensures h in Lookup(ExtendAnti(m, ids, all), g, []) <==> h in Lookup(m, g, []) || (g in ids && h in all && h != g)
  {
    if ids != [] {
      var n := |ids| - 1;
      ExtendAntiSpec(m, ids[..n], all, g, h);
      assert ids == ids[..n] + [ids[n]];
    }
  }

  /** `g` names a group of some family. */
  ghost predicate NamesGroup(input: UnmergeList, g: GroupId)
    requires WellFormed(input)
  {
    exists i :: 0 <= i < |input| && g in Firsts(input[i])
  }

  lemma NamesGroupSnoc(input: UnmergeList, g: GroupId)
    requires WellFormed(input) && input != []
    ensures NamesGroup(input, g) <==> NamesGroup(input[..|input| - 1], g) || g in Firsts(input[|input| - 1])
  {
    var n := |input| - 1;
    var front := input[..n];
    if NamesGroup(input, g) {
      var i :| 0 <= i < |input| && g in Firsts(input[i]);
      if i < n { assert front[i] == input[i]; }
    }
    if NamesGroup(front, g) {
      var i :| 0 <= i < |front| && g in Firsts(front[i]);
      assert input[i] == front[i];
    }
  }

  /** Exactly the group ids of the families get an exclusion entry. */
  lemma {:induction false} BuildExclusionKeys(input: UnmergeList, g: GroupId)
    requires WellFormed(input)
    ensures g in Build(input).anti <==> NamesGroup(input, g)
  {
    if input != [] {
      var n := |input| - 1;
      var front := input[..n];
      var ids := Firsts(input[n]);
      BuildExclusionKeys(front, g);
      ExtendAntiSpec(InputAnti(front), ids, ids, g, g);
      assert InputAnti(front) == Build(front).anti;
      NamesGroupSnoc(input, g);
    }
  }

  lemma ExcludedBySnoc(input: UnmergeList, g: GroupId, h: GroupId)
    requires WellFormed(input) && input != []
    ensures var n := |input| - 1;
            ExcludedBy(input, g, h) <==>
              ExcludedBy(input[..n], g, h) || (g in Firsts(input[n]) && h in Firsts(input[n]) && g != h)
  {
    var n := |input| - 1;
    var front := input[..n];
    if ExcludedBy(input, g, h) {
      var i :| 0 <= i < |input| && g in Firsts(input[i]) && h in Firsts(input[i]) && g != h;
      if i < n {
        assert front[i] == input[i];
      }
    }
    if ExcludedBy(front, g, h) {
      var i :| 0 <= i < |front| && g in Firsts(front[i]) && h in Firsts(front[i]) && g != h;
      assert input[i] == front[i];
    }
  }

  /** Group `h` is excluded by group `g` exactly when both name distinct groups of one family. */
  lemma {:induction false} BuildExclusion(input: UnmergeList, g: GroupId, h: GroupId)
    requires WellFormed(input)
    ensures h in AntiOf(Build(input), g) <==> ExcludedBy(input, g, h)
  {
    if input != [] {
      var n := |input| - 1;
      var front := input[..n];
      var ids := Firsts(input[n]);
      BuildExclusion(front, g, h);
      ExtendAntiSpec(InputAnti(front), ids, ids, g, h);
      assert InputAnti(front) == Build(front).anti;
      ExcludedBySnoc(input, g, h);
    }
  }

  /** The constructed tracker is consistent. */
  lemma BuildConsistent(input: UnmergeList)
    requires WellFormed(input)
    ensures Consistent(Build(input))
  {
    var t := Build(input);
    forall s, g | s in t.groups && g in t.groups[s]
      ensures g in t.anti
    {
      BuildMembership(input, s, g);
      var i :| 0 <= i < |input| && InFamily(input[i], s, g);
      var j :| 0 <= j < |input[i]| && s in input[i][j] && g == input[i][j][0];
      assert Firsts(input[i])[j] == g;
      BuildExclusionKeys(input, g);
      assert NamesGroup(input, g);
    }
    forall g, h | g in t.anti && h in t.anti[g]
      ensures h in t.anti && g in t.anti[h]
    {
      BuildExclusion(input, g, h);
      var i :| 0 <= i < |input| && g in Firsts(input[i]) && h in Firsts(input[i]) && g != h;
      BuildExclusionKeys(input, h);
      BuildExclusion(input, h, g);
    }
    forall g | g in t.anti
      ensures g !in t.anti[g]
    {
      BuildExclusion(input, g, g);
    }
  }

  /** Two segments placed in distinct coherent groups of one family are never
      allowed to merge by the freshly built tracker. */
  lemma BuildForbidsSameFamily(input: UnmergeList, i: nat, j1: nat, j2: nat, a: SegId, b: SegId)
    requires WellFormed(input)
    requires i < |input| && j1 < |input[i]| && j2 < |input[i]|
    requires a in input[i][j1] && b in input[i][j2]
    requires input[i][j1][0] != input[i][j2][0]
    ensures !Allowed(Build(input), a, b)
  {
    var t := Build(input);
    var ga, gb := input[i][j1][0], input[i][j2][0];
    assert InFamily(input[i], a, ga) && InFamily(input[i], b, gb);
    BuildMembership(input, a, ga);
    BuildMembership(input, b, gb);
    assert Firsts(input[i])[j1] == ga && Firsts(input[i])[j2] == gb;
    BuildExclusion(input, ga, gb);
    assert ga in GroupsOf(t, a) && gb in GroupsOf(t, b) && gb in AntiOf(t, ga);
  }

  /** The freshly built tracker allows a merge exactly when no group of `a`
      and group of `b` are distinct groups of one family. */
  lemma BuildAllowedIff(input: UnmergeList, a: SegId, b: SegId)
    requires WellFormed(input)
    ensures Allowed(Build(input), a, b) <==>
              !exists ga, gb :: MemberOf(input, a, ga) && MemberOf(input, b, gb) && ExcludedBy(input, ga, gb)
  {
    var t := Build(input);
    if Conflict(t, a, b) {
      var ga, gb :| ga in GroupsOf(t, a) && gb in GroupsOf(t, b) && gb in AntiOf(t, ga);
      BuildMembership(input, a, ga);
      BuildMembership(input, b, gb);
      BuildExclusion(input, ga, gb);
    }
    if exists ga, gb :: MemberOf(input, a, ga) && MemberOf(input, b, gb) && ExcludedBy(input, ga, gb) {
      var ga, gb :| MemberOf(input, a, ga) && MemberOf(input, b, gb) && ExcludedBy(input, ga, gb);
      BuildMembership(input, a, ga);
      BuildMembership(input, b, gb);
      BuildExclusion(input, ga, gb);
      assert ga in GroupsOf(t, a) && gb in GroupsOf(t, b) && gb in AntiOf(t, ga);
    }
  }

  /** With no constraint families the tracker is empty: every merge is
      allowed and merges change nothing. */
  lemma EmptyInputAllowsEverything(a: SegId, b: SegId, c: SegId)
    ensures Build([]).empty
    ensures Allowed(Build([]), a, b)
    ensures AfterMerge(Build([]), a, b, c) == Build([])
  {
  }

  // ---------------------------------------------------------------------
  // Queries

  /** On a consistent tracker, isValidMerge does not depend on argument order. */
  lemma AllowedSymmetric(t: TrackerState, a: SegId, b: SegId)
    requires Consistent(t)
    ensures Allowed(t, a, b) <==> Allowed(t, b, a)
  {
    if Conflict(t, a, b) {
      var ga, gb :| ga in GroupsOf(t, a) && gb in GroupsOf(t, b) && gb in AntiOf(t, ga);
      assert ga in AntiOf(t, gb);
    }
    if Conflict(t, b, a) {
      var gb, ga :| gb in GroupsOf(t, b) && ga in GroupsOf(t, a) && ga in AntiOf(t, gb);
      assert gb in AntiOf(t, ga);
    }
  }

  /** A segment that belongs to no group may merge with anything. */
  lemma UngroupedAlwaysAllowed(t: TrackerState, a: SegId, b: SegId)
    requires GroupsOf(t, a) == []
    ensures Allowed(t, a, b) && Allowed(t, b, a)
  {
  }

  // ---------------------------------------------------------------------
  // Merges

  /** onMerge changes only the survivor's membership, and never the
      exclusion table. */
  lemma MergeTouchesOnlySurvivor(t: TrackerState, a: SegId, b: SegId, c: SegId, s: SegId)
    requires s != c
    ensures AfterMerge(t, a, b, c).empty == t.empty
    ensures AfterMerge(t, a, b, c).anti == t.anti
    ensures GroupsOf(AfterMerge(t, a, b, c), s) == GroupsOf(t, s)
  {
  }

  /** After onMerge the survivor belongs to exactly the groups of the two
      merged segments. */
  lemma MergeUnitesMemberships(t: TrackerState, a: SegId, b: SegId, c: SegId, g: GroupId)
    requires !t.empty
    requires c == a || c == b
    ensures g in GroupsOf(AfterMerge(t, a, b, c), c) <==> g in GroupsOf(t, a) || g in GroupsOf(t, b)
  {
  }

  /** Memberships only grow under onMerge. */
  lemma MembershipNeverShrinks(t: TrackerState, a: SegId, b: SegId, c: SegId, s: SegId, g: GroupId)
    requires c == a || c == b
    requires g in GroupsOf(t, s)
    ensures g in GroupsOf(AfterMerge(t, a, b, c), s)
  {
  }

  lemma MergeKeepsConsistent(t: TrackerState, a: SegId, b: SegId, c: SegId)
    requires Consistent(t)
    ensures Consistent(AfterMerge(t, a, b, c))
  {
    var r := AfterMerge(t, a, b, c);
    forall s, g | s in r.groups && g in r.groups[s]
      ensures g in r.anti
    {
      if s == c && !t.empty && |GroupsOf(t, a) + GroupsOf(t, b)| > 0 {
        assert g in GroupsOf(t, a) || g in GroupsOf(t, b);
      }
    }
  }

  /** A pair found incompatible stays incompatible after any merge. */
  lemma ConflictPersists(t: TrackerState, a: SegId, b: SegId, c: SegId, x: SegId, y: SegId)
    requires c == a || c == b
    requires !Allowed(t, x, y)
    ensures !Allowed(AfterMerge(t, a, b, c), x, y)
  {
    var r := AfterMerge(t, a, b, c);
    var gx, gy :| gx in GroupsOf(t, x) && gy in GroupsOf(t, y) && gy in AntiOf(t, gx);
    MembershipNeverShrinks(t, a, b, c, x, gx);
    MembershipNeverShrinks(t, a, b, c, y, gy);
    assert gx in GroupsOf(r, x) && gy in GroupsOf(r, y) && gy in AntiOf(r, gx);
  }

  /** The survivor of a merge inherits every incompatibility of either part. */
  lemma SurvivorInheritsConflicts(t: TrackerState, a: SegId, b: SegId, c: SegId, x: SegId)
    requires c == a || c == b
    requires !Allowed(t, a, x) || !Allowed(t, b, x)
    ensures !Allowed(AfterMerge(t, a, b, c), c, x)
  {
    var r := AfterMerge(t, a, b, c);
    var p := if !Allowed(t, a, x) then a else b;
    var gp, gx :| gp in GroupsOf(t, p) && gx in GroupsOf(t, x) && gx in AntiOf(t, gp);
    MergeUnitesMemberships(t, a, b, c, gp);
    MembershipNeverShrinks(t, a, b, c, x, gx);
    assert gp in GroupsOf(r, c) && gx in GroupsOf(r, x) && gx in AntiOf(r, gp);
  }
}
