/**
 * The merge-constraint tracker as the object the merge visitor consults:
 * two tables filled by nested loops in the constructor, a read-only
 * validity search, and an in-place membership update on every merge.
 */
module Unmerge {
  import opened UnmergeSpec

  class UnmergeTracker {
    var segGroups: map<SegId, seq<GroupId>>
    var antiGroups: map<GroupId, seq<GroupId>>
    var isEmpty: bool

    /** The tables as a value. */
    function Model(): TrackerState
      reads this
    {
      TrackerState(isEmpty, segGroups, antiGroups)
    }

    ghost predicate Valid()
      reads this
    {
      Consistent(Model())
    }

    /** Builds the two tables from the constraint families. */
    constructor (input: UnmergeList)
      requires WellFormed(input)
      ensures Model() == Build(input)
      ensures Valid()
    {
      var groups: map<SegId, seq<GroupId>> := map[];
      var anti: map<GroupId, seq<GroupId>> := map[];
      if |input| == 0 {
        segGroups, antiGroups, isEmpty := groups, anti, true;
      } else {
        var t := 0;
        while t < |input|
          invariant 0 <= t <= |input|
          invariant groups == InputGroups(input[..t])
          invariant anti == InputAnti(input[..t])
        {
          assert input[..t + 1][..t] == input[..t];
          var mutex;
          groups, mutex := AddFamilyMembers(groups, input[t]);
          anti := AddFamilyExclusions(anti, mutex);
          t := t + 1;
        }
        assert input[..t] == input;
        segGroups, antiGroups, isEmpty := groups, anti, false;
      }
      new;
      BuildConsistent(input);
    }

    /** One family's membership loop: every segment of every coherent group
        gets that group's first element appended; returns the family's group
        ids in order. */
    static method AddFamilyMembers(groups0: map<SegId, seq<GroupId>>, family: Family)
      returns (groups: map<SegId, seq<GroupId>>, mutex: seq<GroupId>)
      requires forall j :: 0 <= j < |family| ==> family[j] != []
      ensures groups == FamilyGroups(groups0, family)
      ensures mutex == Firsts(family)
    {
      groups, mutex := groups0, [];
      var k := 0;
      while k < |family|
        invariant 0 <= k <= |family|
        invariant mutex == Firsts(family[..k])
        invariant groups == FamilyGroups(groups0, family[..k])
      {
        assert family[..k + 1][..k] == family[..k];
        var segids := family[k];
        var groupid := segids[0];
        mutex := mutex + [groupid];
        ghost var before := groups;
        var s := 0;
        while s < |segids|
          invariant 0 <= s <= |segids|
          invariant groups == AddMember(before, segids[..s], groupid)
        {
          assert segids[..s + 1][..s] == segids[..s];
          groups := groups[segids[s] := Lookup(groups, segids[s], []) + [groupid]];
          s := s + 1;
        }
        assert segids[..s] == segids;
        k := k + 1;
      }
      assert family[..k] == family;
    }

    /** One family's exclusion loop: each group id's exclusion list is
        extended with the family's other group ids. */
    static method AddFamilyExclusions(anti0: map<GroupId, seq<GroupId>>, mutex: seq<GroupId>)
      returns (anti: map<GroupId, seq<GroupId>>)
      ensures anti == ExtendAnti(anti0, mutex, mutex)
    {
      anti := anti0;
      var g := 0;
      while g < |mutex|
        invariant 0 <= g <= |mutex|
        invariant anti == ExtendAnti(anti0, mutex[..g], mutex)
      {
        assert mutex[..g + 1][..g] == mutex[..g];
        var groupid := mutex[g];
        var others := OtherGroups(mutex, groupid);
        anti := anti[groupid := Lookup(anti, groupid, []) + others];
        g := g + 1;
      }
      assert mutex[..g] == mutex;
    }

    /** The ids of `mutex` other than `groupid`, in order. */
    static method OtherGroups(mutex: seq<GroupId>, groupid: GroupId) returns (others: seq<GroupId>)
      ensures others == Others(mutex, groupid)
    {
      others := [];
      var o := 0;
      while o < |mutex|
        invariant 0 <= o <= |mutex|
        invariant others == Others(mutex[..o], groupid)
      {
        assert mutex[..o + 1][..o] == mutex[..o];
        if mutex[o] != groupid {
          others := others + [mutex[o]];
        }
        o := o + 1;
      }
      assert mutex[..o] == mutex;
    }

    /** false exactly when some group of `b` is excluded by some group of `a`;
        always true on an empty tracker. */
    method IsValidMerge(a: SegId, b: SegId) returns (ok: bool)
      requires Valid()
      ensures ok == Allowed(Model(), a, b)
    {
      if isEmpty {
        return true;
      }
      var groupsA := Lookup(segGroups, a, []);
      var groupsB := Lookup(segGroups, b, []);
      // declared outside the loop: only overwritten when the group has an entry
      var antiGroupsA: seq<GroupId> := [];
      var i := 0;
      while i < |groupsA|
        invariant 0 <= i <= |groupsA|
        invariant forall ga, gb :: ga in groupsA[..i] && gb in groupsB ==> gb !in AntiOf(Model(), ga)
      {
        assert groupsA[i] in segGroups[a];
        antiGroupsA := Lookup(antiGroups, groupsA[i], antiGroupsA);
        assert antiGroupsA == AntiOf(Model(), groupsA[i]);
        var j := 0;
        while j < |groupsB|
          invariant 0 <= j <= |groupsB|
          invariant antiGroupsA == AntiOf(Model(), groupsA[i])
          invariant forall gb :: gb in groupsB[..j] ==> gb !in antiGroupsA
        {
          var k := 0;
          while k < |antiGroupsA|
            invariant 0 <= k <= |antiGroupsA|
            invariant groupsB[j] !in antiGroupsA[..k]
          {
            if antiGroupsA[k] == groupsB[j] {
              assert groupsA[i] in GroupsOf(Model(), a) && groupsB[j] in GroupsOf(Model(), b);
              assert groupsB[j] in AntiOf(Model(), groupsA[i]);
              return false;
            }
            k := k + 1;
          }
          assert antiGroupsA[..k] == antiGroupsA;
          assert groupsB[..j + 1] == groupsB[..j] + [groupsB[j]];
          j := j + 1;
        }
        assert groupsB[..j] == groupsB;
        assert groupsA[..i + 1] == groupsA[..i] + [groupsA[i]];
        i := i + 1;
      }
      assert groupsA[..i] == groupsA;
      return true;
    }

    /** Survivor `c` of merging `a` and `b` now belongs to the groups of both
        (left alone when both have none); nothing else changes. */
    method OnMerge(a: SegId, b: SegId, c: SegId)
      requires Valid()
      requires !isEmpty ==> c == a || c == b
      modifies this
      ensures Valid()
      ensures Model() == AfterMerge(old(Model()), a, b, c)
    {
      if isEmpty {
        return;
      }
      var groupsA := Lookup(segGroups, a, []);
      var groupsB := Lookup(segGroups, b, []);
      groupsA := groupsA + groupsB;
      if |groupsA| > 0 {
        segGroups := segGroups[c := groupsA];
      }
      MergeKeepsConsistent(old(Model()), a, b, c);
    }
  }
}
