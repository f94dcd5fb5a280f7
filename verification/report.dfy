/** The structure and counters of M1.py `generate_report`: one section per
    group, the pairwise score lines of each duplicate group, its issues, and
    the trailing summary (matrix mean, duplicate groups, unique submissions).
    The fixed prose lines and the two-decimal float formatting are not part
    of the model. */
module Report {
  import opened Seqs
  import opened Grouping
  import opened Labels
  import opened Discrepancy
  import opened GroupShapes
  import opened GroupingProperties

  /** The classification line of a section. */
  datatype Classification = Duplicate | Unique
  {
    function Text(): string {
      match this
      case Duplicate => "DUPLICATE / ALREADY SUBMITTED"
      case Unique => "UNIQUE / NEW SUBMISSION"
    }
  }

  /** One "first <-> second : score (label)" line. */
  datatype PairLine = PairLine(first: string, second: string, score: real, bucket: SimilarityLabel)

  /** The block printed for group number `number` (counted from 1). */
  datatype Section = Section(
    number: nat,
    classification: Classification,
    documents: seq<string>,
    pairs: seq<PairLine>,
    issues: seq<Issue>)

  /** The mean of an empty matrix is not a number. */
  datatype Average = NotANumber | Mean(value: real)

  datatype Report = Report(
    total: nat,
    sections: seq<Section>,
    average: Average,
    duplicateGroups: nat,
    uniqueSubmissions: nat)

  // ---------------------------------------------------------------------
  // Index pairs of the nested loop `for i ...: for j in range(i + 1, k)`

  /** Strict lexicographic order on index pairs. */
  predicate LexLess(p: (nat, nat), q: (nat, nat)) {
    p.0 < q.0 || (p.0 == q.0 && p.1 < q.1)
  }

  /** The inner loop for a fixed `i`: (i, i+1), ..., (i, k-1). */
  function Row(i: nat, k: nat): seq<(nat, nat)> {
    if i + 1 >= k then [] else seq(k - i - 1, d => (i, i + 1 + d))
  }

  /** The outer loop from `i` on: rows i, i+1, ..., k-1 in turn. */
  function PairsFrom(i: nat, k: nat): (r: seq<(nat, nat)>)
    ensures i <= k ==> |r| == Triangle(k - i)
    decreases k - i
  {
    if i >= k then []
    else
      RowLength(i, k);
      Row(i, k) + PairsFrom(i + 1, k)
  }

  /** The loops visit exactly the pairs i <= p.0 < p.1 < k. */
  lemma {:induction false} PairsFromMembers(i: nat, k: nat)
    ensures forall p :: p in PairsFrom(i, k) <==> i <= p.0 < p.1 < k
    decreases k - i
  {
    if i < k {
      var row, rest := Row(i, k), PairsFrom(i + 1, k);
      PairsFromMembers(i + 1, k);
      RowMembers(i, k);
      assert PairsFrom(i, k) == row + rest;
      forall p: (nat, nat) | p in row + rest ensures i <= p.0 < p.1 < k {
        assert p in row || p in rest;
      }
      forall p: (nat, nat) | i <= p.0 < p.1 < k ensures p in row + rest {
        if p.0 == i { assert p in row; } else { assert p in rest; }
      }
    }
  }

  /** The loops visit pairs in strictly increasing lexicographic order. */
  lemma {:induction false} PairsFromOrdered(i: nat, k: nat)
    ensures forall a, b :: 0 <= a < b < |PairsFrom(i, k)| ==> LexLess(PairsFrom(i, k)[a], PairsFrom(i, k)[b])
    decreases k - i
  {
    if i < k {
      PairsFromOrdered(i + 1, k);
      RowOrdered(i, k);
      RestAbove(i + 1, k);
      OrderedConcat(Row(i, k), PairsFrom(i + 1, k), i);
    }
  }

  /** A row holds pairs starting at `i`, in increasing order. */
  lemma RowOrdered(i: nat, k: nat)
    ensures forall a :: 0 <= a < |Row(i, k)| ==> Row(i, k)[a].0 == i
    ensures forall a, b :: 0 <= a < b < |Row(i, k)| ==> LexLess(Row(i, k)[a], Row(i, k)[b])
  {
  }

  /** The rows from row `j` on hold pairs starting at `j` or later. */
  lemma RestAbove(j: nat, k: nat)
    ensures forall b :: 0 <= b < |PairsFrom(j, k)| ==> PairsFrom(j, k)[b].0 >= j
  {
    PairsFromMembers(j, k);
    forall b | 0 <= b < |PairsFrom(j, k)| ensures PairsFrom(j, k)[b].0 >= j {
      assert PairsFrom(j, k)[b] in PairsFrom(j, k);
    }
  }

  /** Two ordered runs, the first starting at `i` and the second after it,
      concatenate to an ordered run. */
  lemma OrderedConcat(row: seq<(nat, nat)>, rest: seq<(nat, nat)>, i: nat)
    requires forall a :: 0 <= a < |row| ==> row[a].0 == i
    requires forall b :: 0 <= b < |rest| ==> rest[b].0 > i
    requires forall a, b :: 0 <= a < b < |row| ==> LexLess(row[a], row[b])
    requires forall a, b :: 0 <= a < b < |rest| ==> LexLess(rest[a], rest[b])
    ensures forall a, b :: 0 <= a < b < |row + rest| ==> LexLess((row + rest)[a], (row + rest)[b])
  {
    var r := row + rest;
    forall a, b | 0 <= a < b < |r| ensures LexLess(r[a], r[b]) {
      if b < |row| {
        assert r[a] == row[a] && r[b] == row[b];
      } else if a < |row| {
        assert r[a] == row[a] && r[b] == rest[b - |row|];
      } else {
        assert r[a] == rest[a - |row|] && r[b] == rest[b - |row|];
      }
    }
  }

  lemma RowMembers(i: nat, k: nat)
    ensures forall p :: p in Row(i, k) <==> p.0 == i && i < p.1 < k
  {
    forall p: (nat, nat) | p.0 == i && i < p.1 < k ensures p in Row(i, k) {
      assert Row(i, k)[p.1 - i - 1] == p;
    }
  }

  lemma RowLength(i: nat, k: nat)
    requires i < k
    ensures |Row(i, k)| == k - i - 1
  {
  }

  /** Every pair visited by the report's nested loop over a group of `k`
      members, in visiting order. */
  function IndexPairs(k: nat): (r: seq<(nat, nat)>)
    ensures forall p :: p in r <==> p.0 < p.1 < k
    ensures forall a, b :: 0 <= a < b < |r| ==> LexLess(r[a], r[b])
    ensures |r| == Triangle(k)
  {
    PairsFromMembers(0, k);
    PairsFromOrdered(0, k);
    PairsFrom(0, k)
  }

  /** The number of unordered pairs among `n` items, counted row by row. */
  function Triangle(n: nat): nat {
    if n == 0 then 0 else Triangle(n - 1) + n - 1
  }

  /** `n` items have n(n-1)/2 unordered pairs. */
  lemma {:induction false} TriangleClosedForm(n: nat)
    ensures 2 * Triangle(n) == n * (n - 1)
  {
    if n > 0 {
      TriangleClosedForm(n - 1);
      assert n * (n - 1) == (n - 1) * (n - 2) + 2 * (n - 1);
    }
  }

  /** Each unordered pair is visited exactly once. */
  lemma IndexPairsOnce(k: nat, a: nat, b: nat)
    requires a < |IndexPairs(k)| && b < |IndexPairs(k)|
    requires IndexPairs(k)[a] == IndexPairs(k)[b]
    ensures a == b
  {
  }

  // ---------------------------------------------------------------------
  // Pair lines

  /** The line for positions `p` of a group: both names, the score looked up
      through `files.index`, and its bucket. */
  function LineFor(group: seq<string>, files: seq<string>, sim: seq<seq<real>>, p: (nat, nat)): (l: PairLine)
    requires SquareMatrix(sim, |files|)
    requires p.0 < |group| && p.1 < |group|
    requires group[p.0] in files && group[p.1] in files
    ensures l.first == group[p.0] && l.second == group[p.1]
    ensures l.score == sim[IndexOf(files, l.first)][IndexOf(files, l.second)]
    ensures InBucket(l.score, l.bucket)
  {
    var score := sim[IndexOf(files, group[p.0])][IndexOf(files, group[p.1])];
    PairLine(group[p.0], group[p.1], score, LabelOf(score))
  }

  function Lines(group: seq<string>, files: seq<string>, sim: seq<seq<real>>, ps: seq<(nat, nat)>): (r: seq<PairLine>)
    requires SquareMatrix(sim, |files|)
    requires forall k :: 0 <= k < |group| ==> group[k] in files
    requires forall p :: p in ps ==> p.0 < |group| && p.1 < |group|
    ensures |r| == |ps|
    ensures forall t :: 0 <= t < |r| ==> r[t] == LineFor(group, files, sim, ps[t])
  {
    if ps == [] then []
    else [LineFor(group, files, sim, ps[0])] + Lines(group, files, sim, ps[1..])
  }

  /** The "Similarity Evaluation" lines of a group: one per pair of positions
      i < j, in loop order. */
  function PairLines(group: seq<string>, files: seq<string>, sim: seq<seq<real>>): (r: seq<PairLine>)
    requires SquareMatrix(sim, |files|)
    requires forall k :: 0 <= k < |group| ==> group[k] in files
    ensures |r| == Triangle(|group|)
    ensures forall t :: 0 <= t < |r| ==> r[t] == LineFor(group, files, sim, IndexPairs(|group|)[t])
  {
    Lines(group, files, sim, IndexPairs(|group|))
  }

  /** A group of k members gets k(k-1)/2 lines. */
  lemma PairLinesCount(group: seq<string>, files: seq<string>, sim: seq<seq<real>>)
    requires SquareMatrix(sim, |files|)
    requires forall k :: 0 <= k < |group| ==> group[k] in files
    ensures 2 * |PairLines(group, files, sim)| == |group| * (|group| - 1)
  {
    TriangleClosedForm(|group|);
  }

  /** Every pair of members i < j of a group gets a line naming them, and the
      line carries the matrix score of the two documents. */
  lemma PairLinesComplete(group: seq<string>, files: seq<string>, sim: seq<seq<real>>, i: nat, j: nat)
    requires SquareMatrix(sim, |files|)
    requires forall k :: 0 <= k < |group| ==> group[k] in files
    requires i < j < |group|
    ensures exists t ::
      && 0 <= t < |PairLines(group, files, sim)|
      && PairLines(group, files, sim)[t].first == group[i]
      && PairLines(group, files, sim)[t].second == group[j]
      && PairLines(group, files, sim)[t].score == sim[IndexOf(files, group[i])][IndexOf(files, group[j])]
  {
    var ps := IndexPairs(|group|);
    assert (i, j) in ps;
    var t :| 0 <= t < |ps| && ps[t] == (i, j);
    assert PairLines(group, files, sim)[t] == LineFor(group, files, sim, (i, j));
  }

  /** In a group without repeated names, the lines name each unordered pair
      of members once, the earlier member first. */
  lemma PairLinesOnce(group: seq<string>, files: seq<string>, sim: seq<seq<real>>, a: nat, b: nat)
    requires SquareMatrix(sim, |files|)
    requires forall k :: 0 <= k < |group| ==> group[k] in files
    requires Distinct(group)
    requires a < |PairLines(group, files, sim)| && b < |PairLines(group, files, sim)|
    requires PairLines(group, files, sim)[a].first == PairLines(group, files, sim)[b].first
    requires PairLines(group, files, sim)[a].second == PairLines(group, files, sim)[b].second
    ensures a == b
  {
    var ps := IndexPairs(|group|);
    assert ps[a] in ps && ps[b] in ps;
    assert PairLines(group, files, sim)[a] == LineFor(group, files, sim, ps[a]);
    assert PairLines(group, files, sim)[b] == LineFor(group, files, sim, ps[b]);
    assert ps[a] == ps[b];
    IndexPairsOnce(|group|, a, b);
  }

  // ---------------------------------------------------------------------
  // The matrix mean

  /** The sum of `sim[i][j]` over j < m. */
  function RowSum(sim: seq<seq<real>>, i: nat, m: nat): real
    requires i < |sim| && m <= |sim[i]|
  {
    if m == 0 then 0.0 else RowSum(sim, i, m - 1) + sim[i][m - 1]
  }

  /** The sum of `sim[i][j]` over i < m. */
  function ColumnSum(sim: seq<seq<real>>, j: nat, m: nat): real
    requires m <= |sim| && forall i :: 0 <= i < m ==> j < |sim[i]|
  {
    if m == 0 then 0.0 else ColumnSum(sim, j, m - 1) + sim[m - 1][j]
  }

  /** The sum of the leading m-by-m block, grown one row and column at a time. */
  function BlockSum(sim: seq<seq<real>>, m: nat): real
    requires m <= |sim| && forall i :: 0 <= i < m ==> m <= |sim[i]|
  {
    if m == 0 then 0.0
    else BlockSum(sim, m - 1) + RowSum(sim, m - 1, m) + ColumnSum(sim, m - 1, m - 1)
  }

  /** The sum of the entries strictly above the diagonal of the leading
      m-by-m block: each unordered pair of distinct documents once. */
  function UpperSum(sim: seq<seq<real>>, m: nat): real
    requires m <= |sim| && forall i :: 0 <= i < m ==> m <= |sim[i]|
  {
    if m == 0 then 0.0 else UpperSum(sim, m - 1) + ColumnSum(sim, m - 1, m - 1)
  }

  /** `sim_matrix.mean()`: every entry, diagonal and both halves included. */
  function MatrixMean(sim: seq<seq<real>>, n: nat): (a: Average)
    requires SquareMatrix(sim, n)
    ensures n == 0 <==> a == NotANumber
  {
    if n == 0 then NotANumber else Mean(BlockSum(sim, n) / (n * n) as real)
  }

  /** In a symmetric matrix a row prefix and the matching column prefix agree. */
  lemma {:induction false} RowIsColumn(sim: seq<seq<real>>, n: nat, i: nat, m: nat)
    requires WellFormedMatrix(sim, n) && i < n && m <= n
    ensures RowSum(sim, i, m) == ColumnSum(sim, i, m)
  {
    if m > 0 {
      RowIsColumn(sim, n, i, m - 1);
    }
  }

  /** The block sum of a symmetric matrix with unit diagonal is the diagonal
      plus twice the upper triangle. */
  lemma {:induction false} BlockSumSymmetric(sim: seq<seq<real>>, n: nat, m: nat)
    requires WellFormedMatrix(sim, n) && m <= n
    ensures BlockSum(sim, m) == m as real + 2.0 * UpperSum(sim, m)
  {
    if m > 0 {
      BlockSumSymmetric(sim, n, m - 1);
      RowIsColumn(sim, n, m - 1, m - 1);
    }
  }

  /** The reported average is biased toward 1: it counts the n unit diagonal
      entries and every off-diagonal score twice. */
  lemma MeanBiased(sim: seq<seq<real>>, n: nat)
    requires WellFormedMatrix(sim, n) && n > 0
    ensures MatrixMean(sim, n) == Mean((n as real + 2.0 * UpperSum(sim, n)) / (n * n) as real)
  {
    BlockSumSymmetric(sim, n, n);
  }

  /** Sums of non-negative entries are non-negative. */
  lemma {:induction false} UpperSumNonNegative(sim: seq<seq<real>>, n: nat, m: nat)
    requires SquareMatrix(sim, n) && m <= n
    requires forall i, j :: 0 <= i < n && 0 <= j < n ==> sim[i][j] >= 0.0
    ensures UpperSum(sim, m) >= 0.0
  {
    if m > 0 {
      UpperSumNonNegative(sim, n, m - 1);
      ColumnNonNegative(sim, n, m - 1, m - 1);
    }
  }

  lemma {:induction false} ColumnNonNegative(sim: seq<seq<real>>, n: nat, j: nat, m: nat)
    requires SquareMatrix(sim, n) && j < n && m <= n
    requires forall i, j :: 0 <= i < n && 0 <= j < n ==> sim[i][j] >= 0.0
    ensures ColumnSum(sim, j, m) >= 0.0
  {
    if m > 0 {
      ColumnNonNegative(sim, n, j, m - 1);
    }
  }

  /** With non-negative scores the average is at least 1/n, however
      dissimilar the documents are. */
  lemma MeanAtLeastDiagonal(sim: seq<seq<real>>, n: nat)
    requires WellFormedMatrix(sim, n) && n > 0
    requires forall i, j :: 0 <= i < n && 0 <= j < n ==> sim[i][j] >= 0.0
    ensures MatrixMean(sim, n).value >= 1.0 / n as real
  {
    MeanBiased(sim, n);
    UpperSumNonNegative(sim, n, n);
    var u := UpperSum(sim, n);
    var nn := (n * n) as real;
    assert nn == n as real * n as real;
    assert (n as real + 2.0 * u) / nn >= n as real / nn;
    assert n as real / nn == 1.0 / n as real;
  }

  // ---------------------------------------------------------------------
  // The report

  /** What the report needs of its inputs: the members of every group with
      more than one member can be looked up in `files` (by `files.index`)
      and in the per-document facts. Singleton groups are never looked up. */
  predicate Reportable(groups: seq<seq<string>>, files: seq<string>, facts: map<string, DocFacts>) {
    forall g :: 0 <= g < |groups| ==> GroupReportable(groups[g], files, facts)
  }

  predicate GroupReportable(group: seq<string>, files: seq<string>, facts: map<string, DocFacts>) {
    |group| > 1 ==> forall k :: 0 <= k < |group| ==> group[k] in files && group[k] in facts
  }

  /** The block of one group. */
  function SectionOf(number: nat, group: seq<string>, files: seq<string>, sim: seq<seq<real>>,
                     facts: map<string, DocFacts>): (s: Section)
    requires SquareMatrix(sim, |files|)
    requires GroupReportable(group, files, facts)
    ensures s.number == number && s.documents == group
    ensures s.classification == Duplicate <==> |group| > 1
    ensures |group| <= 1 ==> s.pairs == [] && s.issues == []
  {
    if |group| > 1 then
      Section(number, Duplicate, group, PairLines(group, files, sim), AnalyzeGroup(group, facts))
    else
      Section(number, Unique, group, [], AnalyzeGroup(group, facts))
  }

  /** A duplicate section lists every pair of its members, earlier member
      first, with the matrix score of the two documents. */
  lemma SectionLines(number: nat, group: seq<string>, files: seq<string>, sim: seq<seq<real>>,
                     facts: map<string, DocFacts>, i: nat, j: nat)
    requires SquareMatrix(sim, |files|) && GroupReportable(group, files, facts)
    requires i < j < |group|
    ensures var pairs := SectionOf(number, group, files, sim, facts).pairs;
      exists t ::
        && 0 <= t < |pairs|
        && pairs[t].first == group[i] && pairs[t].second == group[j]
        && pairs[t].score == sim[IndexOf(files, group[i])][IndexOf(files, group[j])]
  {
    PairLinesComplete(group, files, sim, i, j);
  }

  /** A duplicate section reports a timeline conflict exactly when its
      members mention different years, and a policy contradiction exactly
      when one says "mandatory" or "must" and one says "optional". */
  lemma SectionIssues(number: nat, group: seq<string>, files: seq<string>, sim: seq<seq<real>>,
                      facts: map<string, DocFacts>)
    requires SquareMatrix(sim, |files|) && GroupReportable(group, files, facts)
    requires |group| > 1
    ensures var issues := SectionOf(number, group, files, sim, facts).issues;
      && ((|issues| > 0 && issues[0].TimelineConflict?) <==> TimelineDisagreement(group, facts))
      && (PolicyContradiction in issues <==> PolicyDisagreement(group, facts))
  {
    var issues := AnalyzeGroup(group, facts);
    assert SectionOf(number, group, files, sim, facts).issues == issues;
  }

  /** The sections of all groups, numbered from 1. */
  function Sections(groups: seq<seq<string>>, facts: map<string, DocFacts>,
                    sim: seq<seq<real>>, files: seq<string>): (r: seq<Section>)
    requires SquareMatrix(sim, |files|)
    requires Reportable(groups, files, facts)
    ensures |r| == |groups|
  {
    if |groups| == 0 then []
    else
      var n := |groups|;
      ReportablePrefix(groups, files, facts, n - 1);
      Sections(groups[..n - 1], facts, sim, files) + [SectionOf(n, groups[n - 1], files, sim, facts)]
  }

  lemma ReportablePrefix(groups: seq<seq<string>>, files: seq<string>, facts: map<string, DocFacts>, m: nat)
    requires Reportable(groups, files, facts) && m <= |groups|
    ensures Reportable(groups[..m], files, facts)
  {
    assert forall g :: 0 <= g < m ==> groups[..m][g] == groups[g];
  }

  /** Section g+1 is the block of group g, in the order of the groups. */
  lemma {:induction false} SectionsInOrder(groups: seq<seq<string>>, facts: map<string, DocFacts>,
                                           sim: seq<seq<real>>, files: seq<string>)
    requires SquareMatrix(sim, |files|)
    requires Reportable(groups, files, facts)
    ensures |Sections(groups, facts, sim, files)| == |groups|
    ensures forall g :: 0 <= g < |groups| ==>
              Sections(groups, facts, sim, files)[g] == SectionOf(g + 1, groups[g], files, sim, facts)
  {
    var n := |groups|;
    if n > 0 {
      var init := groups[..n - 1];
      ReportablePrefix(groups, files, facts, n - 1);
      SectionsInOrder(init, facts, sim, files);
      var ss := Sections(init, facts, sim, files);
      var last := SectionOf(n, groups[n - 1], files, sim, facts);
      assert Sections(groups, facts, sim, files) == ss + [last];
      forall g | 0 <= g < n
        ensures (ss + [last])[g] == SectionOf(g + 1, groups[g], files, sim, facts)
      {
        if g < n - 1 {
          assert init[g] == groups[g];
        }
      }
    }
  }

  /** M1.py `generate_report`, with the text replaced by its structure. */
  function GenerateReport(groups: seq<seq<string>>, facts: map<string, DocFacts>,
                          sim: seq<seq<real>>, files: seq<string>): (r: Report)
    requires SquareMatrix(sim, |files|)
    requires Reportable(groups, files, facts)
    ensures r.total == |files|
    ensures |r.sections| == |groups|
    ensures forall g :: 0 <= g < |groups| ==> r.sections[g] == SectionOf(g + 1, groups[g], files, sim, facts)
    ensures r.duplicateGroups == |DuplicateGroups(groups)|
    ensures r.duplicateGroups == |LargeGroups(groups)|
    ensures r.duplicateGroups + r.uniqueSubmissions == |groups|
    ensures r.average == MatrixMean(sim, |files|)
  {
    var sections := Sections(groups, facts, sim, files);
    SectionsInOrder(groups, facts, sim, files);
    DuplicateGroupsCount(groups);
    var dups := |DuplicateGroups(groups)|;
    Report(|files|, sections, MatrixMean(sim, |files|), dups, |groups| - dups)
  }

  /** Duplicate sections are exactly the counted duplicate groups. */
  lemma {:induction false} DuplicateSectionsCounted(groups: seq<seq<string>>, facts: map<string, DocFacts>,
                                                    sim: seq<seq<real>>, files: seq<string>)
    requires SquareMatrix(sim, |files|)
    requires Reportable(groups, files, facts)
    ensures GenerateReport(groups, facts, sim, files).duplicateGroups == 0 <==>
      forall g :: 0 <= g < |groups| ==> GenerateReport(groups, facts, sim, files).sections[g].classification == Unique
  {
    var r := GenerateReport(groups, facts, sim, files);
    if r.duplicateGroups != 0 {
      var g :| 0 <= g < |groups| && |groups[g]| > 1;
      assert r.sections[g].classification == Duplicate;
    }
  }

  /** Over an exact partition produced for `files`, the counters are tied to
      the corpus size: no duplicates exactly when every document is its own
      unique submission. */
  lemma CountersOverPartition(groups: seq<seq<string>>, facts: map<string, DocFacts>,
                              sim: seq<seq<real>>, files: seq<string>)
    requires SquareMatrix(sim, |files|)
    requires Distinct(files) && Partition(files, groups)
    requires Reportable(groups, files, facts)
    ensures GenerateReport(groups, facts, sim, files).duplicateGroups == 0 <==>
      GenerateReport(groups, facts, sim, files).uniqueSubmissions == |files|
  {
    var r := GenerateReport(groups, facts, sim, files);
    NoDuplicatesIffAllSeparate(files, groups);
    PartitionSize(files, groups);
    if |groups| > 0 {
      TotalSizeAtLeast(groups, 0);
    }
    assert r.duplicateGroups + r.uniqueSubmissions == |groups|;
  }
}
