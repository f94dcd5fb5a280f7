/** The shape of a grouping as the report and the verdict see it: which
    groups are duplicate groups, how many documents they hold beyond their
    first member, and what the shape of a star grouping says about the
    similarity matrix it was built from. */
module GroupShapes {
  import opened Seqs
  import opened Grouping
  import opened GroupingProperties

  /** `[g for g in groups if len(g) > 1]` (module_wrapper.py:75); its length
      is the count `sum(1 for g in groups if len(g) > 1)` of M1.py:186. */
  function DuplicateGroups(groups: seq<seq<string>>): (dups: seq<seq<string>>)
    ensures |dups| <= |groups|
    ensures forall k :: 0 <= k < |dups| ==> |dups[k]| > 1
    ensures forall x :: x in dups <==> x in groups && |x| > 1
    ensures |dups| == 0 <==> forall g :: 0 <= g < |groups| ==> |groups[g]| <= 1
  {
    if |groups| == 0 then []
    else
      var init := groups[..|groups| - 1];
      var last := groups[|groups| - 1];
      assert groups == init + [last];
      if |last| > 1 then DuplicateGroups(init) + [last] else DuplicateGroups(init)
  }

  /** The positions of the groups with more than one member. */
  function LargeGroups(groups: seq<seq<string>>): set<nat> {
    set g | 0 <= g < |groups| && |groups[g]| > 1
  }

  /** Filtering a grouping with one more group at the end. */
  lemma DuplicateGroupsStep(groups: seq<seq<string>>)
    requires |groups| > 0
    ensures var n := |groups|;
      DuplicateGroups(groups) ==
        DuplicateGroups(groups[..n - 1]) + (if |groups[n - 1]| > 1 then [groups[n - 1]] else [])
  {
  }

  lemma LargeGroupsStep(groups: seq<seq<string>>)
    requires |groups| > 0
    ensures var n := |groups|;
      && n - 1 !in LargeGroups(groups[..n - 1])
      && LargeGroups(groups) == LargeGroups(groups[..n - 1]) + (if |groups[n - 1]| > 1 then {n - 1} else {})
  {
    var n := |groups|;
    var init := groups[..n - 1];
    assert forall g :: 0 <= g < n - 1 ==> init[g] == groups[g];
  }

  /** There are as many duplicate groups as positions holding a group with
      more than one member. */
  lemma {:induction false} DuplicateGroupsCount(groups: seq<seq<string>>)
    ensures |DuplicateGroups(groups)| == |LargeGroups(groups)|
  {
    var n := |groups|;
    if n > 0 {
      DuplicateGroupsCount(groups[..n - 1]);
      DuplicateGroupsStep(groups);
      LargeGroupsStep(groups);
    }
  }

  /** `d` is the groups of `groups` below position `m` that have more than
      one member, each taken once and in their original order: entry k of
      `d` is the group at position `idx[k]`, the positions increase, and
      every such group is taken. */
  predicate Selection(groups: seq<seq<string>>, d: seq<seq<string>>, idx: seq<nat>, m: nat)
    requires m <= |groups|
  {
    && |idx| == |d|
    && (forall k :: 0 <= k < |idx| ==> idx[k] < m && d[k] == groups[idx[k]])
    && (forall a, b :: 0 <= a < b < |idx| ==> idx[a] < idx[b])
    && (forall g :: 0 <= g < m && |groups[g]| > 1 ==> g in idx)
  }

  /** The duplicate groups are the groups with more than one member, each
      taken once, in their original order. */
  lemma {:induction false} DuplicateGroupsPositions(groups: seq<seq<string>>) returns (idx: seq<nat>)
    ensures Selection(groups, DuplicateGroups(groups), idx, |groups|)
  {
    var n := |groups|;
    if n == 0 {
      idx := [];
    } else {
      var prev := DuplicateGroupsPositions(groups[..n - 1]);
      SelectionPrefix(groups, DuplicateGroups(groups[..n - 1]), prev);
      DuplicateGroupsStep(groups);
      idx := SelectionExtend(groups, DuplicateGroups(groups[..n - 1]), prev);
    }
  }

  lemma SelectionPrefix(groups: seq<seq<string>>, d: seq<seq<string>>, idx: seq<nat>)
    requires |groups| > 0 && Selection(groups[..|groups| - 1], d, idx, |groups| - 1)
    ensures Selection(groups, d, idx, |groups| - 1)
  {
    var n := |groups|;
    assert forall g :: 0 <= g < n - 1 ==> groups[..n - 1][g] == groups[g];
  }

  lemma SelectionExtend(groups: seq<seq<string>>, d: seq<seq<string>>, prev: seq<nat>) returns (idx: seq<nat>)
    requires |groups| > 0 && Selection(groups, d, prev, |groups| - 1)
    ensures var n := |groups|;
      Selection(groups, d + (if |groups[n - 1]| > 1 then [groups[n - 1]] else []), idx, n)
  {
    var n := |groups|;
    if |groups[n - 1]| > 1 {
      idx := prev + [n - 1];
      var d' := d + [groups[n - 1]];
      assert forall k :: 0 <= k < |prev| ==> d'[k] == d[k] && idx[k] == prev[k];
    } else {
      idx := prev;
      assert d + [] == d;
    }
  }

  /** `sum(len(g) - 1 for g in duplicate_groups)`: the documents that
      duplicate an earlier member of their group, which is the members of
      those groups less one per group. */
  function Excess(dups: seq<seq<string>>): (r: int)
    ensures r == TotalSize(dups) - |dups|
  {
    if |dups| == 0 then 0 else Excess(dups[..|dups| - 1]) + |dups[|dups| - 1]| - 1
  }

  /** With no empty group, the members number one per group plus the excess
      of the duplicate groups. */
  lemma {:induction false} TotalSizeExcess(groups: seq<seq<string>>)
    requires forall h :: 0 <= h < |groups| ==> |groups[h]| > 0
    ensures TotalSize(groups) == |groups| + Excess(DuplicateGroups(groups))
  {
    var n := |groups|;
    if n > 0 {
      var init := groups[..n - 1];
      var last := groups[n - 1];
      TotalSizeExcess(init);
      var d := DuplicateGroups(init);
      assert TotalSize(groups) == TotalSize(init) + |last|;
      if |last| > 1 {
        assert DuplicateGroups(groups) == d + [last];
        assert (d + [last])[..|d|] == d;
        assert Excess(d + [last]) == Excess(d) + |last| - 1;
      } else {
        assert DuplicateGroups(groups) == d;
      }
    }
  }

  /** With no empty group, the members number at least one per group plus
      the size of any one group beyond its first member. */
  lemma {:induction false} TotalSizeAtLeast(groups: seq<seq<string>>, g: nat)
    requires forall h :: 0 <= h < |groups| ==> |groups[h]| > 0
    requires g < |groups|
    ensures TotalSize(groups) >= |groups| + |groups[g]| - 1
    ensures TotalSize(groups) >= |groups|
  {
    var n := |groups|;
    var init := groups[..n - 1];
    if g < n - 1 {
      TotalSizeAtLeast(init, g);
    } else if n > 1 {
      TotalSizeAtLeast(init, 0);
    }
  }

  /** With no empty group, there are as many members as groups exactly when
      every group is a singleton. */
  lemma {:induction false} TotalSizeSingletons(groups: seq<seq<string>>)
    requires forall h :: 0 <= h < |groups| ==> |groups[h]| > 0
    ensures TotalSize(groups) == |groups| <==> forall h :: 0 <= h < |groups| ==> |groups[h]| == 1
  {
    var n := |groups|;
    if n > 0 {
      var init := groups[..n - 1];
      TotalSizeSingletons(init);
      if n > 1 {
        TotalSizeAtLeast(init, 0);
      }
      if TotalSize(groups) == n {
        assert |groups[n - 1]| == 1;
        forall h | 0 <= h < n ensures |groups[h]| == 1 {
          if h < n - 1 { assert groups[h] == init[h]; }
        }
      }
    }
  }

  /** Over an exact partition, no duplicate group exists exactly when there
      are as many groups as documents. */
  lemma NoDuplicatesIffAllSeparate(files: seq<string>, groups: seq<seq<string>>)
    requires Distinct(files) && Partition(files, groups)
    ensures |DuplicateGroups(groups)| == 0 <==> |groups| == |files|
  {
    PartitionSize(files, groups);
    TotalSizeSingletons(groups);
  }

  /** Over an exact partition, the excess is the number of documents minus
      the number of groups. */
  lemma ExcessOverPartition(files: seq<string>, groups: seq<seq<string>>)
    requires Distinct(files) && Partition(files, groups)
    ensures Excess(DuplicateGroups(groups)) == |files| - |groups|
  {
    PartitionSize(files, groups);
    TotalSizeExcess(groups);
  }

  /** The first group of a star grouping is seeded by the first document. */
  lemma FirstSeed(files: seq<string>, groups: seq<seq<string>>)
    requires WellFormedGroups(files, groups) && SeedsFirstUnassigned(files, groups)
    requires |groups| > 0
    ensures Seed(files, groups[0]) == 0 && groups[0][0] == files[0]
  {
    assert Flatten(groups[..0]) == [];
  }

  /** The group holding an id of `files`, and the only one. */
  lemma GroupOf(files: seq<string>, groups: seq<seq<string>>, x: string) returns (g: nat)
    requires Partition(files, groups) && x in files
    ensures g < |groups| && x in groups[g]
    ensures forall h :: 0 <= h < |groups| && x in groups[h] ==> h == g
  {
    ExactlyOneGroup(files, groups, x);
    g :| 0 <= g < |groups| && x in groups[g];
  }

  /** A singleton holding the `i`-th document is seeded at `i`. */
  lemma SingletonSeed(files: seq<string>, group: seq<string>, i: nat)
    requires Distinct(files) && i < |files|
    requires |group| == 1 && files[i] in group
    ensures group == [files[i]] && Seed(files, group) == i
  {
    IndexOfDistinct(files, i);
  }

  /** In a star grouping of distinct documents, every group is a singleton
      exactly when no document scores at or above the threshold against
      any later document. */
  lemma AllSingletonsIff(files: seq<string>, sim: seq<seq<real>>, threshold: real, groups: seq<seq<string>>)
    requires Distinct(files) && SquareMatrix(sim, |files|)
    requires IsStarGrouping(files, sim, threshold, groups)
    ensures (forall g :: 0 <= g < |groups| ==> |groups[g]| == 1) <==>
            (forall i, j :: 0 <= i < j < |files| ==> sim[i][j] < threshold)
  {
    if forall i, j :: 0 <= i < j < |files| ==> sim[i][j] < threshold {
      forall g | 0 <= g < |groups| ensures |groups[g]| == 1 {
        if |groups[g]| > 1 {
          CloseSeedPair(files, sim, threshold, groups, g);
        }
      }
    }
    if forall g :: 0 <= g < |groups| ==> |groups[g]| == 1 {
      forall i, j | 0 <= i < j < |files| ensures sim[i][j] < threshold {
        SingletonsApart(files, sim, threshold, groups, i, j);
      }
    }
  }

  /** A group with a second member exhibits a pair of documents, the
      earlier one its seed, at or above the threshold. */
  lemma CloseSeedPair(files: seq<string>, sim: seq<seq<real>>, threshold: real,
                      groups: seq<seq<string>>, g: nat)
    requires SquareMatrix(sim, |files|) && WellFormedGroups(files, groups)
    requires StarRule(files, sim, threshold, groups) && Ascending(files, groups)
    requires g < |groups| && |groups[g]| > 1
    ensures exists i, j :: 0 <= i < j < |files| && sim[i][j] >= threshold
  {
    MembersAfterSeed(files, groups);
    var s := Seed(files, groups[g]);
    var m := IndexOf(files, groups[g][1]);
    assert StarGroup(files, sim, threshold, groups[g]);
    assert s < m && sim[s][m] >= threshold;
  }

  /** The hard direction of `AllSingletonsIff`, for one pair: the later
      document seeds a later group, so the earlier seed passed it over. */
  lemma SingletonsApart(files: seq<string>, sim: seq<seq<real>>, threshold: real,
                        groups: seq<seq<string>>, i: nat, j: nat)
    requires Distinct(files) && SquareMatrix(sim, |files|)
    requires WellFormedGroups(files, groups) && Partition(files, groups)
    requires SeedsFirstUnassigned(files, groups) && Maximal(files, sim, threshold, groups)
    requires forall g :: 0 <= g < |groups| ==> |groups[g]| == 1
    requires i < j < |files|
    ensures sim[i][j] < threshold
  {
    var g := GroupOf(files, groups, files[i]);
    var h := GroupOf(files, groups, files[j]);
    SingletonSeed(files, groups[g], i);
    SingletonSeed(files, groups[h], j);
    SeedsIncrease(files, groups);
    assert g < h;
    NotInEarlier(groups, h, files[j]);
    FlattenPrefix(groups, g, h);
    assert files[j] !in Flatten(groups[..g]) && files[j] !in groups[g];
  }

  /** Every document after the first that is close enough to it joins the
      first group. */
  lemma FirstGroupHoldsAll(files: seq<string>, sim: seq<seq<real>>, threshold: real, groups: seq<seq<string>>)
    requires SquareMatrix(sim, |files|) && WellFormedGroups(files, groups)
    requires SeedsFirstUnassigned(files, groups) && Maximal(files, sim, threshold, groups)
    requires |groups| > 0 && |files| > 0
    requires forall j :: 0 < j < |files| ==> sim[0][j] >= threshold
    ensures forall j :: 0 <= j < |files| ==> files[j] in groups[0]
  {
    FirstSeed(files, groups);
    assert Flatten(groups[..0]) == [];
    forall j | 0 < j < |files| ensures files[j] in groups[0] {
      assert sim[Seed(files, groups[0])][j] >= threshold;
    }
  }

  /** A single group is seeded by the first document and holds every other
      one, each close enough to it. */
  lemma OneGroupSimilar(files: seq<string>, sim: seq<seq<real>>, threshold: real, groups: seq<seq<string>>)
    requires Distinct(files) && SquareMatrix(sim, |files|) && |files| > 0
    requires WellFormedGroups(files, groups) && Partition(files, groups)
    requires SeedsFirstUnassigned(files, groups) && StarRule(files, sim, threshold, groups)
    requires |groups| == 1
    ensures forall j :: 0 < j < |files| ==> sim[0][j] >= threshold
  {
    FirstSeed(files, groups);
    assert StarGroup(files, sim, threshold, groups[0]);
    forall j | 0 < j < |files| ensures sim[0][j] >= threshold {
      var g := GroupOf(files, groups, files[j]);
      var k :| 0 <= k < |groups[0]| && groups[0][k] == files[j];
      IndexOfDistinct(files, j);
      assert k != 0;
      assert sim[0][IndexOf(files, groups[0][k])] >= threshold;
    }
  }

  /** In a star grouping of a non-empty list of distinct documents, there
      is a single group exactly when the first document scores at or above
      the threshold against every other one. */
  lemma OneGroupIff(files: seq<string>, sim: seq<seq<real>>, threshold: real, groups: seq<seq<string>>)
    requires Distinct(files) && SquareMatrix(sim, |files|)
    requires IsStarGrouping(files, sim, threshold, groups)
    requires |files| > 0
    ensures |groups| == 1 <==> forall j :: 0 < j < |files| ==> sim[0][j] >= threshold
  {
    var g0 := GroupOf(files, groups, files[0]);
    if |groups| == 1 {
      OneGroupSimilar(files, sim, threshold, groups);
    }
    if forall j :: 0 < j < |files| ==> sim[0][j] >= threshold {
      FirstGroupHoldsAll(files, sim, threshold, groups);
      if |groups| > 1 {
        var k := IndexOf(files, groups[1][0]);
        var g := GroupOf(files, groups, files[k]);
      }
    }
  }
}
