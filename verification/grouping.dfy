/** The greedy "star" clustering of M1.py `group_documents`: each id not yet
    assigned, taken in list order, seeds a group, and every other unassigned
    id joins it when its similarity TO THE SEED reaches the threshold. */
module Grouping {
  import opened Seqs

  /** The grouping threshold used by every caller (M1.py:70, module_wrapper.py:67). */
  const DefaultThreshold: real := 0.75

  /** An n-by-n matrix: every index pair below n can be looked up. */
  predicate SquareMatrix(sim: seq<seq<real>>, n: nat) {
    |sim| == n && forall i :: 0 <= i < n ==> |sim[i]| == n
  }

  /** What the similarity builder guarantees on top of the shape:
      symmetric scores and self-similarity 1 on the diagonal. */
  predicate WellFormedMatrix(sim: seq<seq<real>>, n: nat) {
    && SquareMatrix(sim, n)
    && (forall i, j :: 0 <= i < n && 0 <= j < n ==> sim[i][j] == sim[j][i])
    && (forall i :: 0 <= i < n ==> sim[i][i] == 1.0)
  }

  /** Every group is non-empty and made only of ids of `files`. */
  predicate WellFormedGroups(files: seq<string>, groups: seq<seq<string>>) {
    forall g :: 0 <= g < |groups| ==>
      |groups[g]| > 0 && forall k :: 0 <= k < |groups[g]| ==> groups[g][k] in files
  }

  /** The groups form an exact partition of `files`: no empty group, every id
      of `files` occurs, nothing else occurs, and nothing occurs twice. */
  predicate Partition(files: seq<string>, groups: seq<seq<string>>) {
    && (forall g :: 0 <= g < |groups| ==> |groups[g]| > 0)
    && Distinct(Flatten(groups))
    && (forall x :: x in Flatten(groups) ==> x in files)
    && (forall x :: x in files ==> x in Flatten(groups))
  }

  /** The position in `files` of the seed (first member) of a group. */
  function Seed(files: seq<string>, group: seq<string>): nat
    requires |group| > 0 && group[0] in files
  {
    IndexOf(files, group[0])
  }

  /** Each seed is the first id not placed in an earlier group. */
  predicate SeedsFirstUnassigned(files: seq<string>, groups: seq<seq<string>>)
    requires WellFormedGroups(files, groups)
  {
    forall g :: 0 <= g < |groups| ==>
      forall j :: 0 <= j < Seed(files, groups[g]) ==> files[j] in Flatten(groups[..g])
  }

  /** Every non-seed member is similar enough to its seed (and only the seed
      is consulted). */
  predicate StarRule(files: seq<string>, sim: seq<seq<real>>, threshold: real, groups: seq<seq<string>>)
    requires SquareMatrix(sim, |files|) && WellFormedGroups(files, groups)
  {
    forall g :: 0 <= g < |groups| ==> StarGroup(files, sim, threshold, groups[g])
  }

  /** `StarRule` for one group. */
  predicate StarGroup(files: seq<string>, sim: seq<seq<real>>, threshold: real, group: seq<string>)
    requires SquareMatrix(sim, |files|)
    requires |group| > 0 && forall k :: 0 <= k < |group| ==> group[k] in files
  {
    forall k :: 1 <= k < |group| ==> sim[Seed(files, group)][IndexOf(files, group[k])] >= threshold
  }

  /** Within a group, members appear in increasing position in `files`. */
  predicate Ascending(files: seq<string>, groups: seq<seq<string>>)
    requires WellFormedGroups(files, groups)
  {
    forall g :: 0 <= g < |groups| ==> AscendingGroup(files, groups[g])
  }

  /** `Ascending` for one group. */
  predicate AscendingGroup(files: seq<string>, group: seq<string>)
    requires forall k :: 0 <= k < |group| ==> group[k] in files
  {
    forall k :: 1 <= k < |group| ==> IndexOf(files, group[k - 1]) < IndexOf(files, group[k])
  }

  /** When a group closes, no id that was unassigned at seeding time and is
      similar enough to the seed has been left out. */
  predicate Maximal(files: seq<string>, sim: seq<seq<real>>, threshold: real, groups: seq<seq<string>>)
    requires SquareMatrix(sim, |files|) && WellFormedGroups(files, groups)
  {
    forall g :: 0 <= g < |groups| ==>
      forall j :: 0 <= j < |files| && j != Seed(files, groups[g])
                  && files[j] !in Flatten(groups[..g])
                  && sim[Seed(files, groups[g])][j] >= threshold
                  ==> files[j] in groups[g]
  }

  /** All the facts `group_documents` establishes, in one place. */
  predicate IsStarGrouping(files: seq<string>, sim: seq<seq<real>>, threshold: real, groups: seq<seq<string>>)
    requires SquareMatrix(sim, |files|)
  {
    && WellFormedGroups(files, groups)
    && Partition(files, groups)
    && SeedsFirstUnassigned(files, groups)
    && StarRule(files, sim, threshold, groups)
    && Ascending(files, groups)
    && Maximal(files, sim, threshold, groups)
  }

  /** M1.py `group_documents`. The ids are the keys of a dictionary in every
      caller, hence duplicate-free. */
  method GroupDocuments(files: seq<string>, sim: seq<seq<real>>, threshold: real)
    returns (groups: seq<seq<string>>)
    requires Distinct(files)
    requires SquareMatrix(sim, |files|)
    ensures WellFormedGroups(files, groups)
    ensures Partition(files, groups)
    ensures SeedsFirstUnassigned(files, groups)
    ensures StarRule(files, sim, threshold, groups)
    ensures Ascending(files, groups)
    ensures Maximal(files, sim, threshold, groups)
  {
    groups := [];
    var used: set<string> := {};
    for i := 0 to |files|
      invariant Tracked(files, groups, used, i)
      invariant StarPrefix(files, sim, threshold, groups)
    {
      if files[i] !in used {
        var group, used' := GrowGroup(files, sim, threshold, i, used);
        OpenGroup(files, sim, threshold, groups, used, group, used', i);
        CloseGroup(files, sim, threshold, groups, group, i);
        groups, used := groups + [group], used';
      } else {
        TrackedSkip(files, groups, used, i);
      }
    }
    Covered(files, groups, used);
  }

  /** The bookkeeping of the outer loop: `used` holds exactly the grouped
      ids, these are duplicate-free, and the first `i` ids are all used. */
  ghost predicate Tracked(files: seq<string>, groups: seq<seq<string>>, used: set<string>, i: nat)
    requires i <= |files|
  {
    && (forall x :: x in used <==> x in Flatten(groups))
    && (forall k :: 0 <= k < i ==> files[k] in used)
    && Distinct(Flatten(groups))
  }

  /** The facts of a star grouping that already hold for the groups closed
      so far, before every id has been placed. */
  ghost predicate StarPrefix(files: seq<string>, sim: seq<seq<real>>, threshold: real, groups: seq<seq<string>>)
    requires SquareMatrix(sim, |files|)
  {
    && WellFormedGroups(files, groups)
    && SeedsFirstUnassigned(files, groups)
    && StarRule(files, sim, threshold, groups)
    && Ascending(files, groups)
    && Maximal(files, sim, threshold, groups)
  }

  /** An id already used is passed over. */
  lemma TrackedSkip(files: seq<string>, groups: seq<seq<string>>, used: set<string>, i: nat)
    requires i < |files| && Tracked(files, groups, used, i) && files[i] in used
    ensures Tracked(files, groups, used, i + 1)
  {
  }

  /** What the scan for seed `i` hands to `CloseGroup`, and the bookkeeping
      after the new group is appended. */
  lemma OpenGroup(files: seq<string>, sim: seq<seq<real>>, threshold: real, groups: seq<seq<string>>,
                  used0: set<string>, group: seq<string>, used: set<string>, i: nat)
    requires Distinct(files) && SquareMatrix(sim, |files|) && i < |files|
    requires Tracked(files, groups, used0, i)
    requires files[i] !in used0
    requires forall x :: x in used <==> x in used0 || x in group
    requires forall x :: x in group ==> x !in used0
    requires Distinct(group)
    requires forall m :: 0 <= m < |files| && m != i && files[m] !in used0 && sim[i][m] >= threshold
               ==> files[m] in group
    requires |group| >= 1 && group[0] == files[i]
    ensures forall k :: 0 <= k < i ==> files[k] in Flatten(groups)
    ensures forall m :: 0 <= m < |files| && m != i && files[m] !in Flatten(groups) && sim[i][m] >= threshold
               ==> files[m] in group
    ensures Tracked(files, groups + [group], used, i + 1)
  {
    FlattenAppend(groups, group);
    DistinctConcat(Flatten(groups), group);
    assert forall x :: x in Flatten(groups + [group]) <==> x in Flatten(groups) || x in group;
  }

  /** After the last id, the grouping is an exact partition. */
  lemma Covered(files: seq<string>, groups: seq<seq<string>>, used: set<string>)
    requires Tracked(files, groups, used, |files|)
    requires WellFormedGroups(files, groups)
    ensures Partition(files, groups)
  {
    forall x | x in files
      ensures x in Flatten(groups)
    {
      var k := IndexOf(files, x);
    }
    forall x | x in Flatten(groups)
      ensures x in files
    {
      FlattenMember(groups, x);
      var g :| 0 <= g < |groups| && x in groups[g];
      var k :| 0 <= k < |groups[g]| && groups[g][k] == x;
    }
  }

  /** The inner scan of `group_documents` for the seed at position `i`: the
      seed first, then, in list order, every other id that is still unused
      and whose similarity to the seed reaches the threshold. Returns the
      group and the enlarged used-set. */
  method GrowGroup(files: seq<string>, sim: seq<seq<real>>, threshold: real, i: nat, used0: set<string>)
    returns (group: seq<string>, used: set<string>)
    requires Distinct(files) && SquareMatrix(sim, |files|) && i < |files|
    requires files[i] !in used0
    requires forall k :: 0 <= k < i ==> files[k] in used0
    ensures |group| >= 1 && group[0] == files[i]
    ensures forall k :: 0 <= k < |group| ==> group[k] in files
    ensures forall x :: x in used <==> x in used0 || x in group
    ensures forall x :: x in group ==> x !in used0
    ensures Distinct(group)
    ensures forall k :: 1 <= k < |group| ==> sim[i][IndexOf(files, group[k])] >= threshold
    ensures forall k :: 1 <= k < |group| ==> IndexOf(files, group[k - 1]) < IndexOf(files, group[k])
    ensures forall m :: 0 <= m < |files| && m != i && files[m] !in used0 && sim[i][m] >= threshold
              ==> files[m] in group
  {
    ghost var members: seq<nat> := [i];
    group := [files[i]];
    used := used0 + {files[i]};
    for j := 0 to |files|
      invariant |group| == |members| >= 1 && members[0] == i && group[0] == files[i]
      invariant forall k :: 0 <= k < |group| ==> members[k] < |files| && group[k] == files[members[k]]
      invariant forall k :: 1 <= k < |group| ==> i < members[k] < j && sim[i][members[k]] >= threshold
      invariant forall a, b :: 0 <= a < b < |group| ==> members[a] < members[b]
      invariant forall x :: x in used <==> x in used0 || x in group
      invariant forall x :: x in group ==> x !in used0
      invariant Distinct(group)
      invariant forall m :: 0 <= m < j && m != i && files[m] !in used0 && sim[i][m] >= threshold
                  ==> files[m] in group
    {
      if i != j && files[j] !in used && sim[i][j] >= threshold {
        group := group + [files[j]];
        members := members + [j];
        used := used + {files[j]};
      }
    }
    forall k | 0 <= k < |group|
      ensures IndexOf(files, group[k]) == members[k]
    {
      IndexOfDistinct(files, members[k]);
    }
  }

  /** Appending the group just closed for seed `i` keeps every invariant of
      the outer loop of `GroupDocuments`. */
  lemma CloseGroup(files: seq<string>, sim: seq<seq<real>>, threshold: real,
                   groups: seq<seq<string>>, group: seq<string>, i: nat)
    requires Distinct(files) && SquareMatrix(sim, |files|) && i < |files|
    requires StarPrefix(files, sim, threshold, groups)
    requires forall k :: 0 <= k < i ==> files[k] in Flatten(groups)
    requires |group| >= 1 && group[0] == files[i]
    requires forall k :: 0 <= k < |group| ==> group[k] in files
    requires forall k :: 1 <= k < |group| ==> sim[i][IndexOf(files, group[k])] >= threshold
    requires forall k :: 1 <= k < |group| ==> IndexOf(files, group[k - 1]) < IndexOf(files, group[k])
    requires forall m :: 0 <= m < |files| && m != i && files[m] !in Flatten(groups) && sim[i][m] >= threshold
               ==> files[m] in group
    ensures StarPrefix(files, sim, threshold, groups + [group])
  {
    CloseSeeds(files, groups, group, i);
    NewGroupStar(files, sim, threshold, group, i);
    CloseStar(files, sim, threshold, groups, group);
    CloseAscending(files, groups, group);
    CloseMaximal(files, sim, threshold, groups, group, i);
  }

  /** How the groups with one more appended relate to the groups before. */
  lemma AppendedGroups(groups: seq<seq<string>>, group: seq<string>)
    ensures |groups + [group]| == |groups| + 1 && (groups + [group])[|groups|] == group
    ensures (groups + [group])[..|groups|] == groups
    ensures forall g :: 0 <= g < |groups| ==> (groups + [group])[g] == groups[g]
    ensures forall g :: 0 <= g < |groups| ==> (groups + [group])[..g] == groups[..g]
  {
    var gs := groups + [group];
    forall g | 0 <= g < |groups| ensures gs[..g] == groups[..g] {
    }
  }

  /** The appended group keeps every member inside `files`. */
  lemma CloseWellFormed(files: seq<string>, groups: seq<seq<string>>, group: seq<string>)
    requires WellFormedGroups(files, groups)
    requires |group| >= 1
    requires forall k :: 0 <= k < |group| ==> group[k] in files
    ensures WellFormedGroups(files, groups + [group])
  {
    AppendedGroups(groups, group);
  }

  lemma CloseSeeds(files: seq<string>, groups: seq<seq<string>>, group: seq<string>, i: nat)
    requires Distinct(files) && i < |files|
    requires WellFormedGroups(files, groups)
    requires SeedsFirstUnassigned(files, groups)
    requires forall k :: 0 <= k < i ==> files[k] in Flatten(groups)
    requires |group| >= 1 && group[0] == files[i]
    requires forall k :: 0 <= k < |group| ==> group[k] in files
    ensures WellFormedGroups(files, groups + [group])
    ensures SeedsFirstUnassigned(files, groups + [group])
  {
    var gs := groups + [group];
    CloseWellFormed(files, groups, group);
    AppendedGroups(groups, group);
    forall g | 0 <= g < |gs|
      ensures forall j :: 0 <= j < Seed(files, gs[g]) ==> files[j] in Flatten(gs[..g])
    {
      if g < |groups| {
        assert gs[g] == groups[g] && gs[..g] == groups[..g];
      } else {
        IndexOfDistinct(files, i);
        assert gs[g] == group && gs[..g] == groups;
      }
    }
  }

  lemma CloseStar(files: seq<string>, sim: seq<seq<real>>, threshold: real,
                  groups: seq<seq<string>>, group: seq<string>)
    requires SquareMatrix(sim, |files|)
    requires WellFormedGroups(files, groups)
    requires StarRule(files, sim, threshold, groups)
    requires |group| >= 1
    requires forall k :: 0 <= k < |group| ==> group[k] in files
    requires StarGroup(files, sim, threshold, group)
    ensures WellFormedGroups(files, groups + [group])
    ensures StarRule(files, sim, threshold, groups + [group])
  {
    CloseWellFormed(files, groups, group);
    AppendedGroups(groups, group);
  }

  /** The new group obeys the star rule: its seed is `files[i]`. */
  lemma NewGroupStar(files: seq<string>, sim: seq<seq<real>>, threshold: real, group: seq<string>, i: nat)
    requires Distinct(files) && SquareMatrix(sim, |files|) && i < |files|
    requires |group| >= 1 && group[0] == files[i]
    requires forall k :: 0 <= k < |group| ==> group[k] in files
    requires forall k :: 1 <= k < |group| ==> sim[i][IndexOf(files, group[k])] >= threshold
    ensures StarGroup(files, sim, threshold, group)
  {
    IndexOfDistinct(files, i);
  }

  lemma CloseAscending(files: seq<string>, groups: seq<seq<string>>, group: seq<string>)
    requires WellFormedGroups(files, groups)
    requires Ascending(files, groups)
    requires |group| >= 1
    requires forall k :: 0 <= k < |group| ==> group[k] in files
    requires forall k :: 1 <= k < |group| ==> IndexOf(files, group[k - 1]) < IndexOf(files, group[k])
    ensures WellFormedGroups(files, groups + [group])
    ensures Ascending(files, groups + [group])
  {
    CloseWellFormed(files, groups, group);
    AppendedGroups(groups, group);
    assert AscendingGroup(files, group);
  }

  lemma CloseMaximal(files: seq<string>, sim: seq<seq<real>>, threshold: real,
                     groups: seq<seq<string>>, group: seq<string>, i: nat)
    requires Distinct(files) && SquareMatrix(sim, |files|) && i < |files|
    requires WellFormedGroups(files, groups)
    requires Maximal(files, sim, threshold, groups)
    requires |group| >= 1 && group[0] == files[i]
    requires forall k :: 0 <= k < |group| ==> group[k] in files
    requires forall m :: 0 <= m < |files| && m != i && files[m] !in Flatten(groups) && sim[i][m] >= threshold
               ==> files[m] in group
    ensures WellFormedGroups(files, groups + [group])
    ensures Maximal(files, sim, threshold, groups + [group])
  {
    var gs := groups + [group];
    CloseWellFormed(files, groups, group);
    AppendedGroups(groups, group);
    forall g | 0 <= g < |gs|
      ensures forall j :: 0 <= j < |files| && j != Seed(files, gs[g])
                  && files[j] !in Flatten(gs[..g])
                  && sim[Seed(files, gs[g])][j] >= threshold
                  ==> files[j] in gs[g]
    {
      if g < |groups| {
        assert gs[g] == groups[g] && gs[..g] == groups[..g];
      } else {
        IndexOfDistinct(files, i);
        assert gs[g] == group && gs[..g] == groups;
      }
    }
  }
}
