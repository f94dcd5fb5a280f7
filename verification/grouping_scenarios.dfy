/** Concrete groupings, derived from the contract of `GroupDocuments` alone:
    three documents where only the first two are similar, and a chain of
    similarities whose grouping depends on the input order. */
module GroupingScenarios {
  import opened Seqs
  import opened Grouping
  import opened GroupingProperties

  /** Three different ids, and where each one sits. */
  lemma ThreeIds(x: string, y: string, z: string)
    requires x != y && y != z && x != z
    ensures Distinct([x, y, z])
    ensures IndexOf([x, y, z], x) == 0 && IndexOf([x, y, z], y) == 1 && IndexOf([x, y, z], z) == 2
  {
    var files := [x, y, z];
    assert files[0] == x && files[1] == y && files[2] == z;
    IndexOfDistinct(files, 0);
    IndexOfDistinct(files, 1);
    IndexOfDistinct(files, 2);
  }

  lemma PairThenSingleShape(x: string, y: string, z: string)
    ensures Flatten([[x, y], [z]]) == [x, y, z]
    ensures Flatten([[x, y], [z]][..1]) == [x, y]
    ensures Flatten([[x, y], [z]][..0]) == []
  {
    var e := [[x, y], [z]];
    assert e[..0] == [] && e[..1] == [[x, y]] && e[..1][..0] == [];
    assert Flatten(e[..1]) == Flatten(e[..1][..0]) + [x, y];
    assert Flatten(e) == Flatten(e[..1]) + [z];
  }

  /** A group of two whose second member follows the first in `files`. */
  lemma AscendingTwo(files: seq<string>, a: string, b: string)
    requires a in files && b in files && IndexOf(files, a) < IndexOf(files, b)
    ensures AscendingGroup(files, [a, b])
  {
    assert [a, b][0] == a && [a, b][1] == b;
  }

  lemma AscendingThree(files: seq<string>, a: string, b: string, c: string)
    requires a in files && b in files && c in files
    requires IndexOf(files, a) < IndexOf(files, b) < IndexOf(files, c)
    ensures AscendingGroup(files, [a, b, c])
  {
    assert [a, b, c][0] == a && [a, b, c][1] == b && [a, b, c][2] == c;
  }

  /** A group of two whose second member is close enough to the first. */
  lemma StarTwo(files: seq<string>, sim: seq<seq<real>>, t: real, a: string, b: string)
    requires SquareMatrix(sim, |files|) && a in files && b in files
    requires sim[IndexOf(files, a)][IndexOf(files, b)] >= t
    ensures StarGroup(files, sim, t, [a, b])
  {
    assert [a, b][0] == a && [a, b][1] == b;
  }

  lemma StarThree(files: seq<string>, sim: seq<seq<real>>, t: real, a: string, b: string, c: string)
    requires SquareMatrix(sim, |files|) && a in files && b in files && c in files
    requires sim[IndexOf(files, a)][IndexOf(files, b)] >= t
    requires sim[IndexOf(files, a)][IndexOf(files, c)] >= t
    ensures StarGroup(files, sim, t, [a, b, c])
  {
    assert [a, b, c][0] == a && [a, b, c][1] == b && [a, b, c][2] == c;
  }

  /** The per-group predicates of two groups carry over to the grouping. */
  lemma TwoGroups(files: seq<string>, sim: seq<seq<real>>, t: real, g0: seq<string>, g1: seq<string>)
    requires SquareMatrix(sim, |files|)
    requires |g0| > 0 && forall k :: 0 <= k < |g0| ==> g0[k] in files
    requires |g1| > 0 && forall k :: 0 <= k < |g1| ==> g1[k] in files
    requires StarGroup(files, sim, t, g0) && StarGroup(files, sim, t, g1)
    requires AscendingGroup(files, g0) && AscendingGroup(files, g1)
    ensures WellFormedGroups(files, [g0, g1])
    ensures StarRule(files, sim, t, [g0, g1]) && Ascending(files, [g0, g1])
  {
    var gs := [g0, g1];
    assert gs[0] == g0 && gs[1] == g1;
  }

  lemma PairThenSinglePartition(x: string, y: string, z: string)
    requires x != y && y != z && x != z
    ensures WellFormedGroups([x, y, z], [[x, y], [z]])
    ensures Partition([x, y, z], [[x, y], [z]])
  {
    ThreeIds(x, y, z);
    PairThenSingleShape(x, y, z);
  }

  lemma PairThenSingleSeeds(x: string, y: string, z: string)
    requires x != y && y != z && x != z
    ensures WellFormedGroups([x, y, z], [[x, y], [z]])
    ensures Seed([x, y, z], [x, y]) == 0 && Seed([x, y, z], [z]) == 2
    ensures SeedsFirstUnassigned([x, y, z], [[x, y], [z]])
  {
    var files, groups := [x, y, z], [[x, y], [z]];
    ThreeIds(x, y, z);
    PairThenSingleShape(x, y, z);
    assert groups[0] == [x, y] && groups[1] == [z];
  }

  lemma PairThenSingleStar(x: string, y: string, z: string, sim: seq<seq<real>>, t: real)
    requires x != y && y != z && x != z
    requires SquareMatrix(sim, 3)
    requires sim[0][1] >= t
    ensures WellFormedGroups([x, y, z], [[x, y], [z]])
    ensures StarRule([x, y, z], sim, t, [[x, y], [z]])
    ensures Ascending([x, y, z], [[x, y], [z]])
  {
    var files := [x, y, z];
    ThreeIds(x, y, z);
    StarTwo(files, sim, t, x, y);
    AscendingTwo(files, x, y);
    TwoGroups(files, sim, t, [x, y], [z]);
  }

  lemma PairThenSingleMaximal(x: string, y: string, z: string, sim: seq<seq<real>>, t: real)
    requires x != y && y != z && x != z
    requires SquareMatrix(sim, 3)
    requires sim[0][2] < t
    ensures WellFormedGroups([x, y, z], [[x, y], [z]])
    ensures Maximal([x, y, z], sim, t, [[x, y], [z]])
  {
    var files, groups := [x, y, z], [[x, y], [z]];
    PairThenSingleSeeds(x, y, z);
    PairThenSingleShape(x, y, z);
    assert groups[0] == [x, y] && groups[1] == [z];
    assert files[0] in Flatten(groups[..1]) && files[1] in Flatten(groups[..1]);
  }

  /** [[x, y], [z]] meets the contract for any matrix that puts y, but not
      z, at or above the threshold from x. */
  lemma PairThenSingle(x: string, y: string, z: string, sim: seq<seq<real>>, t: real)
    requires x != y && y != z && x != z
    requires SquareMatrix(sim, 3)
    requires sim[0][1] >= t && sim[0][2] < t
    ensures IsStarGrouping([x, y, z], sim, t, [[x, y], [z]])
  {
    PairThenSinglePartition(x, y, z);
    PairThenSingleSeeds(x, y, z);
    PairThenSingleStar(x, y, z, sim, t);
    PairThenSingleMaximal(x, y, z, sim, t);
  }

  lemma SingleGroupShape(x: string, y: string, z: string, sim: seq<seq<real>>, t: real)
    requires SquareMatrix(sim, 3)
    requires x != y && y != z && x != z
    ensures WellFormedGroups([x, y, z], [[x, y, z]])
    ensures Partition([x, y, z], [[x, y, z]])
    ensures Seed([x, y, z], [x, y, z]) == 0
    ensures SeedsFirstUnassigned([x, y, z], [[x, y, z]])
    ensures Maximal([x, y, z], sim, t, [[x, y, z]])
  {
    var groups := [[x, y, z]];
    ThreeIds(x, y, z);
    assert groups[..0] == [];
    assert Flatten(groups) == Flatten(groups[..0]) + [x, y, z];
  }

  /** [[x, y, z]] meets the contract for any matrix that puts both y and z
      at or above the threshold from x. */
  lemma SingleGroup(x: string, y: string, z: string, sim: seq<seq<real>>, t: real)
    requires x != y && y != z && x != z
    requires SquareMatrix(sim, 3)
    requires sim[0][1] >= t && sim[0][2] >= t
    ensures IsStarGrouping([x, y, z], sim, t, [[x, y, z]])
  {
    var files, groups := [x, y, z], [[x, y, z]];
    SingleGroupShape(x, y, z, sim, t);
    ThreeIds(x, y, z);
    StarThree(files, sim, t, x, y, z);
    AscendingThree(files, x, y, z);
    assert groups[0] == [x, y, z];
  }

  /** sim(A,B) = 0.95, sim(A,C) = 0.40, sim(B,C) = 0.30, in the order A, B, C. */
  function WalkThroughMatrix(): seq<seq<real>> {
    [[1.0, 0.95, 0.40],
     [0.95, 1.0, 0.30],
     [0.40, 0.30, 1.0]]
  }

  /** B attaches to the seed A; C starts its own group. */
  lemma WalkThrough(groups: seq<seq<string>>)
    requires IsStarGrouping(["A", "B", "C"], WalkThroughMatrix(), DefaultThreshold, groups)
    ensures groups == [["A", "B"], ["C"]]
  {
    var m := WalkThroughMatrix();
    assert SquareMatrix(m, 3) && m[0][1] == 0.95 && m[0][2] == 0.40;
    PairThenSingle("A", "B", "C", m, DefaultThreshold);
    ThreeIds("A", "B", "C");
    StarGroupingUnique(["A", "B", "C"], m, DefaultThreshold, groups, [["A", "B"], ["C"]]);
  }

  /** sim(A,B) = sim(B,C) = 0.8 and sim(A,C) = 0.1, in the order A, B, C. */
  function ChainMatrix(): seq<seq<real>> {
    [[1.0, 0.8, 0.1],
     [0.8, 1.0, 0.8],
     [0.1, 0.8, 1.0]]
  }

  /** The same similarities, in the order B, A, C. */
  function ChainMatrixFromB(): seq<seq<real>> {
    [[1.0, 0.8, 0.8],
     [0.8, 1.0, 0.1],
     [0.8, 0.1, 1.0]]
  }

  /** Seeded by A, the group stops at B: C is compared with A only. */
  lemma ChainFromA(groups: seq<seq<string>>)
    requires IsStarGrouping(["A", "B", "C"], ChainMatrix(), DefaultThreshold, groups)
    ensures groups == [["A", "B"], ["C"]]
  {
    var m := ChainMatrix();
    assert SquareMatrix(m, 3) && m[0][1] == 0.8 && m[0][2] == 0.1;
    PairThenSingle("A", "B", "C", m, DefaultThreshold);
    ThreeIds("A", "B", "C");
    StarGroupingUnique(["A", "B", "C"], m, DefaultThreshold, groups, [["A", "B"], ["C"]]);
  }

  /** Seeded by B, all three documents form one group, although A and C
      (positions 1 and 2 of the matrix, similarity 0.1) are not similar to
      each other: the order of the input decides the grouping, and members
      need not be similar among themselves. */
  lemma ChainFromB(groups: seq<seq<string>>)
    requires IsStarGrouping(["B", "A", "C"], ChainMatrixFromB(), DefaultThreshold, groups)
    ensures groups == [["B", "A", "C"]]
  {
    var m := ChainMatrixFromB();
    assert SquareMatrix(m, 3) && m[0][1] == 0.8 && m[0][2] == 0.8;
    SingleGroup("B", "A", "C", m, DefaultThreshold);
    ThreeIds("B", "A", "C");
    StarGroupingUnique(["B", "A", "C"], m, DefaultThreshold, groups, [["B", "A", "C"]]);
  }
}
