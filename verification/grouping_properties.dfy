/** Consequences of the contract of `Grouping.GroupDocuments`: every id lands
    in exactly one group, seeds and members are ordered, and the contract
    pins the output down completely. */
module GroupingProperties {
  import opened Seqs
  import opened Grouping

  /** Splitting a duplicate-free concatenation. */
  lemma DistinctSplit<T>(a: seq<T>, b: seq<T>)
    requires Distinct(a + b)
    ensures Distinct(a) && Distinct(b)
    ensures forall x :: x in a ==> x !in b
  {
    forall i, j | 0 <= i < j < |a| ensures a[i] != a[j] {
      assert a[i] == (a + b)[i] && a[j] == (a + b)[j];
    }
    forall i, j | 0 <= i < j < |b| ensures b[i] != b[j] {
      assert b[i] == (a + b)[|a| + i] && b[j] == (a + b)[|a| + j];
    }
    forall x | x in a ensures x !in b {
      var i :| 0 <= i < |a| && a[i] == x;
      assert (a + b)[i] == x;
      forall j | 0 <= j < |b| ensures b[j] != x {
        assert (a + b)[|a| + j] == b[j];
      }
    }
  }

  /** A member of group `g` of a duplicate-free grouping occurs in no earlier
      group, and the group itself is duplicate-free. */
  lemma {:induction false} NotInEarlier<T>(gs: seq<seq<T>>, g: nat, x: T)
    requires Distinct(Flatten(gs)) && g < |gs| && x in gs[g]
    ensures x !in Flatten(gs[..g])
    ensures Distinct(gs[g])
  {
    var init := gs[..|gs| - 1];
    DistinctSplit(Flatten(init), gs[|gs| - 1]);
    if g == |gs| - 1 {
      assert gs[..g] == init;
    } else {
      assert init[..g] == gs[..g];
      assert init[g] == gs[g];
      NotInEarlier(init, g, x);
    }
  }

  /** Every id of `files` is in exactly one group, and occurs in it once. */
  lemma ExactlyOneGroup(files: seq<string>, groups: seq<seq<string>>, x: string)
    requires Partition(files, groups)
    requires x in files
    ensures exists g :: 0 <= g < |groups| && x in groups[g]
    ensures forall g1, g2 :: 0 <= g1 < |groups| && 0 <= g2 < |groups| && x in groups[g1] && x in groups[g2]
              ==> g1 == g2
    ensures forall g :: 0 <= g < |groups| ==> Distinct(groups[g])
  {
    FlattenMember(groups, x);
    forall g1, g2 | 0 <= g1 < |groups| && 0 <= g2 < |groups| && x in groups[g1] && x in groups[g2]
      ensures g1 == g2
    {
      if g1 < g2 {
        FlattenMember(groups[..g2], x);
        assert groups[..g2][g1] == groups[g1];
        NotInEarlier(groups, g2, x);
      } else if g2 < g1 {
        FlattenMember(groups[..g1], x);
        assert groups[..g1][g2] == groups[g2];
        NotInEarlier(groups, g1, x);
      }
    }
    forall g | 0 <= g < |groups| ensures Distinct(groups[g]) {
      NotInEarlier(groups, g, groups[g][0]);
    }
  }

  /** The number of grouped ids equals the number of input ids. */
  lemma PartitionSize(files: seq<string>, groups: seq<seq<string>>)
    requires Distinct(files) && Partition(files, groups)
    ensures TotalSize(groups) == |files|
  {
    FlattenLength(groups);
    SameElementsSameLength(Flatten(groups), files);
  }

  /** What an earlier prefix of the groups holds, a longer prefix holds too. */
  lemma FlattenPrefix<T>(gs: seq<seq<T>>, a: nat, b: nat)
    requires a <= b <= |gs|
    ensures forall x :: x in Flatten(gs[..a]) ==> x in Flatten(gs[..b])
  {
    forall x | x in Flatten(gs[..a]) ensures x in Flatten(gs[..b]) {
      FlattenMember(gs[..a], x);
      var g :| 0 <= g < a && x in gs[..a][g];
      assert gs[..b][g] == gs[..a][g];
      FlattenMember(gs[..b], x);
    }
  }

  /** Seeds appear in strictly increasing position. */
  lemma SeedsIncrease(files: seq<string>, groups: seq<seq<string>>)
    requires WellFormedGroups(files, groups) && Partition(files, groups)
    requires SeedsFirstUnassigned(files, groups)
    ensures forall g1, g2 :: 0 <= g1 < g2 < |groups| ==> Seed(files, groups[g1]) < Seed(files, groups[g2])
  {
    forall g1, g2 | 0 <= g1 < g2 < |groups|
      ensures Seed(files, groups[g1]) < Seed(files, groups[g2])
    {
      SeedPair(files, groups, g1, g2);
    }
  }

  /** `SeedsIncrease` for one pair of groups. */
  lemma SeedPair(files: seq<string>, groups: seq<seq<string>>, g1: nat, g2: nat)
    requires WellFormedGroups(files, groups) && Partition(files, groups)
    requires SeedsFirstUnassigned(files, groups)
    requires g1 < g2 < |groups|
    ensures Seed(files, groups[g1]) < Seed(files, groups[g2])
  {
    var s1, s2 := Seed(files, groups[g1]), Seed(files, groups[g2]);
    var x, y := groups[g2][0], groups[g1][0];
    assert files[s2] == x && files[s1] == y;
    NotInEarlier(groups, g2, x);
    FlattenPrefix(groups, g1, g2);
    assert x !in Flatten(groups[..g1]);
    assert groups[..g2][g1] == groups[g1];
    FlattenMember(groups[..g2], y);
    assert x != y;
  }

  /** Ascending consecutive positions give ascending positions overall. */
  lemma {:induction false} AscendingAll(files: seq<string>, group: seq<string>, i: nat, j: nat)
    requires forall k :: 0 <= k < |group| ==> group[k] in files
    requires forall k :: 1 <= k < |group| ==> IndexOf(files, group[k - 1]) < IndexOf(files, group[k])
    requires i < j < |group|
    ensures IndexOf(files, group[i]) < IndexOf(files, group[j])
    decreases j - i
  {
    if i + 1 < j {
      AscendingAll(files, group, i + 1, j);
    }
  }

  /** Every non-seed member comes after its seed in `files`, and (since all
      earlier ids are taken) is never the seed of a later group. */
  lemma MembersAfterSeed(files: seq<string>, groups: seq<seq<string>>)
    requires WellFormedGroups(files, groups) && Ascending(files, groups)
    ensures forall g, k :: 0 <= g < |groups| && 1 <= k < |groups[g]| ==>
              Seed(files, groups[g]) < IndexOf(files, groups[g][k])
  {
    forall g, k | 0 <= g < |groups| && 1 <= k < |groups[g]|
      ensures Seed(files, groups[g]) < IndexOf(files, groups[g][k])
    {
      AscendingAll(files, groups[g], 0, k);
    }
  }

  /** The positions in `files` of the members of a group. */
  function Positions(files: seq<string>, group: seq<string>): (p: seq<int>)
    requires forall k :: 0 <= k < |group| ==> group[k] in files
    ensures |p| == |group|
    ensures forall k :: 0 <= k < |group| ==> 0 <= p[k] < |files| && files[p[k]] == group[k]
  {
    seq(|group|, k requires 0 <= k < |group| => IndexOf(files, group[k]))
  }

  /** Two ascending groups with the same members are the same sequence. */
  lemma AscendingUnique(files: seq<string>, a: seq<string>, b: seq<string>)
    requires forall k :: 0 <= k < |a| ==> a[k] in files
    requires forall k :: 0 <= k < |b| ==> b[k] in files
    requires forall k :: 1 <= k < |a| ==> IndexOf(files, a[k - 1]) < IndexOf(files, a[k])
    requires forall k :: 1 <= k < |b| ==> IndexOf(files, b[k - 1]) < IndexOf(files, b[k])
    requires forall x :: x in a <==> x in b
    ensures a == b
  {
    var pa, pb := Positions(files, a), Positions(files, b);
    forall i, j | 0 <= i < j < |a| ensures pa[i] < pa[j] {
      AscendingAll(files, a, i, j);
    }
    forall i, j | 0 <= i < j < |b| ensures pb[i] < pb[j] {
      AscendingAll(files, b, i, j);
    }
    forall x | x in pa ensures x in pb {
      var k :| 0 <= k < |pa| && pa[k] == x;
      assert a[k] in a;
      var m :| 0 <= m < |b| && b[m] == a[k];
      assert pb[m] == x;
    }
    forall x | x in pb ensures x in pa {
      var k :| 0 <= k < |pb| && pb[k] == x;
      assert b[k] in b;
      var m :| 0 <= m < |a| && a[m] == b[k];
      assert pa[m] == x;
    }
    IncreasingUnique(pa, pb);
  }

  /** Group `g` has the same seed in two groupings that agree before it. */
  lemma SameSeed(files: seq<string>, g1: seq<seq<string>>, g2: seq<seq<string>>, g: nat)
    requires WellFormedGroups(files, g1) && WellFormedGroups(files, g2)
    requires Distinct(Flatten(g1)) && Distinct(Flatten(g2))
    requires SeedsFirstUnassigned(files, g1) && SeedsFirstUnassigned(files, g2)
    requires g < |g1| && g < |g2| && g1[..g] == g2[..g]
    ensures Seed(files, g1[g]) == Seed(files, g2[g])
  {
    var s1, s2 := Seed(files, g1[g]), Seed(files, g2[g]);
    NotInEarlier(g1, g, g1[g][0]);
    NotInEarlier(g2, g, g2[g][0]);
    assert files[s1] !in Flatten(g2[..g]);
    assert files[s2] !in Flatten(g1[..g]);
  }

  /** Every member of group `g` of `g1` is a member of group `g` of `g2`
      when both have the same seed and the same earlier groups. */
  lemma Included(files: seq<string>, sim: seq<seq<real>>, threshold: real,
                 g1: seq<seq<string>>, g2: seq<seq<string>>, g: nat)
    requires SquareMatrix(sim, |files|)
    requires WellFormedGroups(files, g1) && WellFormedGroups(files, g2)
    requires Distinct(Flatten(g1))
    requires StarRule(files, sim, threshold, g1) && Ascending(files, g1)
    requires Maximal(files, sim, threshold, g2)
    requires g < |g1| && g < |g2| && g1[..g] == g2[..g]
    requires Seed(files, g1[g]) == Seed(files, g2[g])
    ensures forall x :: x in g1[g] ==> x in g2[g]
  {
    MembersAfterSeed(files, g1);
    var s := Seed(files, g1[g]);
    forall x | x in g1[g] ensures x in g2[g] {
      var k :| 0 <= k < |g1[g]| && g1[g][k] == x;
      if k > 0 {
        NotInEarlier(g1, g, x);
        var j := IndexOf(files, x);
        assert files[j] == x && j != s && sim[s][j] >= threshold;
      }
    }
  }

  /** Group `g` is forced once the earlier groups are: same seed, same members. */
  lemma SameGroup(files: seq<string>, sim: seq<seq<real>>, threshold: real,
                  g1: seq<seq<string>>, g2: seq<seq<string>>, g: nat)
    requires Distinct(files) && SquareMatrix(sim, |files|)
    requires IsStarGrouping(files, sim, threshold, g1) && IsStarGrouping(files, sim, threshold, g2)
    requires g < |g1| && g < |g2| && g1[..g] == g2[..g]
    ensures g1[g] == g2[g]
  {
    SameSeed(files, g1, g2, g);
    Included(files, sim, threshold, g1, g2, g);
    Included(files, sim, threshold, g2, g1, g);
    AscendingUnique(files, g1[g], g2[g]);
  }

  /** Two groupings satisfying the contract agree on their first `n` groups. */
  lemma {:induction false} PrefixesAgree(files: seq<string>, sim: seq<seq<real>>, threshold: real,
                                         g1: seq<seq<string>>, g2: seq<seq<string>>, n: nat)
    requires Distinct(files) && SquareMatrix(sim, |files|)
    requires IsStarGrouping(files, sim, threshold, g1) && IsStarGrouping(files, sim, threshold, g2)
    requires n <= |g1| && n <= |g2|
    ensures g1[..n] == g2[..n]
  {
    if n > 0 {
      PrefixesAgree(files, sim, threshold, g1, g2, n - 1);
      SameGroup(files, sim, threshold, g1, g2, n - 1);
      PrefixExtend(g1, g2, n - 1);
    }
  }

  /** Equal prefixes followed by equal elements are longer equal prefixes. */
  lemma PrefixExtend<T>(a: seq<T>, b: seq<T>, n: nat)
    requires n < |a| && n < |b| && a[..n] == b[..n] && a[n] == b[n]
    ensures a[..n + 1] == b[..n + 1]
  {
    assert a[..n + 1] == a[..n] + [a[n]];
    assert b[..n + 1] == b[..n] + [b[n]];
  }

  /** The contract of `GroupDocuments` determines its result: any two
      groupings satisfying it are equal. */
  lemma StarGroupingUnique(files: seq<string>, sim: seq<seq<real>>, threshold: real,
                           g1: seq<seq<string>>, g2: seq<seq<string>>)
    requires Distinct(files) && SquareMatrix(sim, |files|)
    requires IsStarGrouping(files, sim, threshold, g1) && IsStarGrouping(files, sim, threshold, g2)
    ensures g1 == g2
  {
    if |g1| <= |g2| {
      PrefixesAgree(files, sim, threshold, g1, g2, |g1|);
      NoGroupBeyond(files, g1, g2);
    } else {
      PrefixesAgree(files, sim, threshold, g1, g2, |g2|);
      NoGroupBeyond(files, g2, g1);
    }
  }

  /** A partition that is a prefix of another grouping of the same ids
      leaves no group over. */
  lemma NoGroupBeyond(files: seq<string>, short: seq<seq<string>>, long: seq<seq<string>>)
    requires Partition(files, short)
    requires WellFormedGroups(files, long) && Distinct(Flatten(long))
    requires |short| <= |long| && short == long[..|short|]
    ensures short == long
  {
    if |short| < |long| {
      NotInEarlier(long, |short|, long[|short|][0]);
    }
  }
}
