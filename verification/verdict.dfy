/** The M1 verdict of module_wrapper.py `analyze_document_m1`: load the
    documents that have enough text into a dictionary keyed by file name,
    group them with the star rule at threshold 0.75, and map the shape of the
    grouping to a label and a score. Reading files and building the
    similarity matrix happen outside the model: the read contents and the
    matrix are parameters. */
module Verdict {
  import opened Seqs
  import opened Grouping
  import opened GroupingProperties
  import opened TextCleaning
  import opened GroupShapes

  // ---------------------------------------------------------------------
  // Loading

  /** `os.path.basename` on POSIX paths: everything after the last '/'.
      The upload handler in app.py stores each file under its
      `secure_filename`, which holds no separator, so for the paths the
      handler produces this is the stored file name itself. */
  function Basename(path: string): (name: string)
    ensures '/' !in name
    ensures |name| <= |path| && name == path[|path| - |name|..]
    ensures |name| < |path| ==> path[|path| - |name| - 1] == '/'
  {
    if |path| == 0 || path[|path| - 1] == '/' then ""
    else Basename(path[..|path| - 1]) + [path[|path| - 1]]
  }

  /** A read document is kept when it has more than 30 characters once
      surrounding whitespace is stripped (an empty read fails the same test). */
  predicate Substantial(content: string): (b: bool)
    ensures b ==> |content| > 30
    ensures b ==> exists i :: 0 <= i < |content| && !IsSpace(content[i])
  {
    StripNonEmpty(content);
    |Strip(content)| > 30
  }

  /** One entry of the insertion-ordered dictionary `cleaned_docs`. */
  datatype Entry = Entry(name: string, text: string)

  function Names(corpus: seq<Entry>): seq<string> {
    seq(|corpus|, i requires 0 <= i < |corpus| => corpus[i].name)
  }

  /** `cleaned_docs[name] = text`: a new name is appended, a known name keeps
      its position and gets the new text. */
  function Put(corpus: seq<Entry>, name: string, text: string): (r: seq<Entry>)
    requires Distinct(Names(corpus))
    ensures Distinct(Names(r))
    ensures name in Names(corpus) ==> Names(r) == Names(corpus)
    ensures name !in Names(corpus) ==> Names(r) == Names(corpus) + [name]
    ensures forall i :: 0 <= i < |r| && r[i].name == name ==> r[i].text == text
    ensures forall i :: 0 <= i < |corpus| && corpus[i].name != name ==> r[i] == corpus[i]
  {
    var names := Names(corpus);
    if name in names then
      var k := IndexOf(names, name);
      var r := corpus[k := Entry(name, text)];
      assert Names(r) == names;
      forall i | 0 <= i < |r| && r[i].name == name ensures r[i].text == text {
        assert names[i] == name;
        IndexOfDistinct(names, i);
      }
      r
    else
      var r := corpus + [Entry(name, text)];
      assert Names(r) == names + [name];
      forall i | 0 <= i < |corpus| ensures r[i].name != name {
        assert r[i].name == names[i];
      }
      r
  }

  /** What one upload contributes to the dictionary: its file name and
      cleaned text when it has enough text, nothing otherwise. */
  function Keep(path: string, content: string): seq<Entry> {
    if Substantial(content) then [Entry(Basename(path), CleanText(content))] else []
  }

  /** The contributions of the uploads, in upload order. */
  function Gather(paths: seq<string>, contents: seq<string>, keep: (string, string) -> seq<Entry>): seq<Entry>
    requires |paths| == |contents|
  {
    if |paths| == 0 then []
    else
      var n := |paths|;
      Gather(paths[..n - 1], contents[..n - 1], keep) + keep(paths[n - 1], contents[n - 1])
  }

  /** The uploaded documents that pass the length test, in upload order,
      each under its file name with its cleaned text. */
  function Kept(paths: seq<string>, contents: seq<string>): (r: seq<Entry>)
    requires |paths| == |contents|
    ensures |r| <= |paths|
  {
    assert forall p, c :: |Keep(p, c)| <= 1;
    GatherAtMostOne(paths, contents, Keep);
    Gather(paths, contents, Keep)
  }

  /** When each upload contributes at most one entry, there are at most as
      many entries as uploads. */
  lemma {:induction false} GatherAtMostOne(paths: seq<string>, contents: seq<string>,
                                           keep: (string, string) -> seq<Entry>)
    requires |paths| == |contents|
    requires forall p, c :: |keep(p, c)| <= 1
    ensures |Gather(paths, contents, keep)| <= |paths|
  {
    if |paths| > 0 {
      GatherAtMostOne(paths[..|paths| - 1], contents[..|contents| - 1], keep);
    }
  }

  /** Gathering collects exactly what some upload contributes. */
  lemma {:induction false} GatherMembers(paths: seq<string>, contents: seq<string>,
                                         keep: (string, string) -> seq<Entry>, e: Entry)
    requires |paths| == |contents|
    ensures e in Gather(paths, contents, keep) <==>
      exists i :: 0 <= i < |paths| && e in keep(paths[i], contents[i])
  {
    var n := |paths|;
    if n > 0 {
      var ps, cs := paths[..n - 1], contents[..n - 1];
      GatherMembers(ps, cs, keep, e);
      if exists i :: 0 <= i < n - 1 && e in keep(ps[i], cs[i]) {
        var i :| 0 <= i < n - 1 && e in keep(ps[i], cs[i]);
        assert paths[i] == ps[i] && contents[i] == cs[i];
      }
      if exists i :: 0 <= i < n && e in keep(paths[i], contents[i]) {
        var i :| 0 <= i < n && e in keep(paths[i], contents[i]);
        if i < n - 1 {
          assert paths[i] == ps[i] && contents[i] == cs[i];
        }
      }
    }
  }

  /** An entry is kept exactly when some upload with more than 30 characters
      of stripped text produced it, under the upload's file name and with
      its cleaned text. */
  lemma KeptMembers(paths: seq<string>, contents: seq<string>, e: Entry)
    requires |paths| == |contents|
    ensures e in Kept(paths, contents) <==>
      exists i :: 0 <= i < |paths| && Substantial(contents[i])
        && e == Entry(Basename(paths[i]), CleanText(contents[i]))
  {
    GatherMembers(paths, contents, Keep, e);
    forall i | 0 <= i < |paths|
      ensures e in Keep(paths[i], contents[i]) <==>
        Substantial(contents[i]) && e == Entry(Basename(paths[i]), CleanText(contents[i]))
    {
      KeepMember(paths[i], contents[i], e);
    }
  }

  lemma KeepMember(path: string, content: string, e: Entry)
    ensures e in Keep(path, content) <==>
      Substantial(content) && e == Entry(Basename(path), CleanText(content))
  {
  }

  /** Storing entries into an empty dictionary one after the other. */
  function Insert(entries: seq<Entry>): (corpus: seq<Entry>)
    ensures Distinct(Names(corpus))
  {
    if |entries| == 0 then []
    else
      var last := entries[|entries| - 1];
      Put(Insert(entries[..|entries| - 1]), last.name, last.text)
  }

  /** module_wrapper.py:46-55, the loop that fills `cleaned_docs`. */
  function Load(paths: seq<string>, contents: seq<string>): (corpus: seq<Entry>)
    requires |paths| == |contents|
    ensures Distinct(Names(corpus))
    ensures |corpus| <= |paths|
  {
    InsertLength(Kept(paths, contents));
    Insert(Kept(paths, contents))
  }

  lemma {:induction false} InsertLength(entries: seq<Entry>)
    ensures |Insert(entries)| <= |entries|
  {
    if |entries| > 0 {
      InsertLength(entries[..|entries| - 1]);
    }
  }

  /** A name is in the dictionary exactly when some stored entry has it. */
  lemma {:induction false} InsertNames(entries: seq<Entry>, x: string)
    ensures x in Names(Insert(entries)) <==> exists i :: 0 <= i < |entries| && entries[i].name == x
  {
    var n := |entries|;
    if n > 0 {
      var init := entries[..n - 1];
      InsertNames(init, x);
      if exists i :: 0 <= i < n - 1 && init[i].name == x {
        var i :| 0 <= i < n - 1 && init[i].name == x;
        assert entries[i].name == x;
      }
      if exists i :: 0 <= i < n && entries[i].name == x {
        var i :| 0 <= i < n && entries[i].name == x;
        if i < n - 1 {
          assert init[i].name == x;
        }
      }
    }
  }

  /** The dictionary's keys are the file names of the uploads with more
      than 30 characters of stripped text. */
  lemma LoadNames(paths: seq<string>, contents: seq<string>, x: string)
    requires |paths| == |contents|
    ensures x in Names(Load(paths, contents)) <==>
      exists i :: 0 <= i < |paths| && Substantial(contents[i]) && Basename(paths[i]) == x
  {
    var ks := Kept(paths, contents);
    InsertNames(ks, x);
    if exists k :: 0 <= k < |ks| && ks[k].name == x {
      var k :| 0 <= k < |ks| && ks[k].name == x;
      KeptMembers(paths, contents, ks[k]);
    }
    if exists i :: 0 <= i < |paths| && Substantial(contents[i]) && Basename(paths[i]) == x {
      var i :| 0 <= i < |paths| && Substantial(contents[i]) && Basename(paths[i]) == x;
      var e := Entry(x, CleanText(contents[i]));
      KeptMembers(paths, contents, e);
      var k :| 0 <= k < |ks| && ks[k] == e;
    }
  }

  /** One store, seen from entry `k` of the result: either the last entry
      has that name and set the text, or entry `k` was already there under
      another name than the last entry's. */
  lemma InsertStep(entries: seq<Entry>, k: nat)
    requires |entries| > 0 && k < |Insert(entries)|
    ensures var n := |entries|;
      var e := Insert(entries)[k];
      var prev := Insert(entries[..n - 1]);
      || entries[n - 1] == e
      || (entries[n - 1].name != e.name && k < |prev| && prev[k] == e)
  {
    var n := |entries|;
    var prev := Insert(entries[..n - 1]);
    var r := Insert(entries);
    var last := entries[n - 1];
    assert Names(r)[k] == r[k].name;
  }

  /** The last store under a name wins: every dictionary entry is the last
      stored entry with its name. */
  lemma {:induction false} InsertLastWins(entries: seq<Entry>, k: nat)
    requires k < |Insert(entries)|
    ensures exists i ::
      && 0 <= i < |entries|
      && entries[i] == Insert(entries)[k]
      && forall j :: i < j < |entries| ==> entries[j].name != Insert(entries)[k].name
  {
    var n := |entries|;
    var init := entries[..n - 1];
    var e := Insert(entries)[k];
    InsertStep(entries, k);
    if entries[n - 1] != e {
      InsertLastWins(init, k);
      var i :| && 0 <= i < n - 1
               && init[i] == e
               && forall j :: i < j < n - 1 ==> init[j].name != e.name;
      assert entries[i] == e;
      forall j | i < j < n ensures entries[j].name != e.name {
        if j < n - 1 {
          assert init[j].name != e.name;
        }
      }
    }
  }

  // ---------------------------------------------------------------------
  // Verdict

  /** The labels `analyze_document_m1` returns. */
  datatype Label = Error | Unique | AllUnique | AllDuplicate | HasDuplicates
  {
    function Text(): string {
      match this
      case Error => "ERROR"
      case Unique => "UNIQUE"
      case AllUnique => "ALL_UNIQUE"
      case AllDuplicate => "ALL_DUPLICATE"
      case HasDuplicates => "HAS_DUPLICATES"
    }
  }

  datatype Outcome = Outcome(verdict: Label, score: int)

  /** `int((part / whole) * 100)` for a non-negative part, computed exactly. */
  function Percent(part: nat, whole: nat): (p: nat)
    requires whole > 0
    ensures part < whole ==> p < 100
  {
    if part < whole then
      QuotientBelow(100 * part, whole, 100);
      Quotient(100 * part, whole)
    else
      Quotient(100 * part, whole)
  }

  /** Whole-number division of non-negative numbers, by repeated subtraction. */
  function Quotient(a: nat, b: nat): nat
    requires b > 0
    decreases a
  {
    if a < b then 0 else 1 + Quotient(a - b, b)
  }

  /** `Quotient` is the rounded-down quotient: the largest `q` with
      `q * b <= a`. */
  lemma {:induction false} QuotientBounds(a: nat, b: nat)
    requires b > 0
    ensures Quotient(a, b) * b <= a < (Quotient(a, b) + 1) * b
    decreases a
  {
    if a >= b {
      QuotientBounds(a - b, b);
      var q := Quotient(a - b, b);
      assert (q + 1) * b == q * b + b;
      assert (q + 2) * b == (q + 1) * b + b;
    }
  }

  /** Below `k` times the divisor, the quotient is below `k`. */
  lemma {:induction false} QuotientBelow(a: nat, b: nat, k: nat)
    requires b > 0 && a < k * b
    ensures Quotient(a, b) < k
    decreases a
  {
    if a >= b {
      assert a - b < (k - 1) * b;
      QuotientBelow(a - b, b, k - 1);
    }
  }

  function Min(a: int, b: int): int {
    if a <= b then a else b
  }

  /** module_wrapper.py:75-89: the label and score of a grouping of `n`
      documents. */
  function Decide(groups: seq<seq<string>>, n: nat): (o: Outcome)
    requires n > 0
    ensures o.verdict == AllUnique || o.verdict == AllDuplicate || o.verdict == HasDuplicates
    ensures o.verdict == AllUnique <==> forall g :: 0 <= g < |groups| ==> |groups[g]| <= 1
    ensures o.verdict == AllUnique ==> o.score == 100
    ensures o.verdict == AllDuplicate ==> o.score == 5
    ensures o.verdict == HasDuplicates ==> 0 <= o.score <= 100
  {
    var dups := DuplicateGroups(groups);
    if |dups| == 0 then Outcome(AllUnique, 100)
    else if |dups| == 1 && |dups[0]| == n then Outcome(AllDuplicate, 5)
    else
      ExcessAtLeast(dups);
      Outcome(HasDuplicates, Min(100, Percent(Excess(dups), n)))
  }

  /** Each duplicate group adds at least one to the excess. */
  lemma {:induction false} ExcessAtLeast(dups: seq<seq<string>>)
    requires forall k :: 0 <= k < |dups| ==> |dups[k]| > 1
    ensures Excess(dups) >= |dups|
  {
    if |dups| > 0 {
      ExcessAtLeast(dups[..|dups| - 1]);
    }
  }

  /** Over an exact partition, all documents are unique exactly when
      there are as many groups as documents. */
  lemma DecideAllUnique(files: seq<string>, groups: seq<seq<string>>)
    requires Distinct(files) && Partition(files, groups) && |files| > 0
    ensures Decide(groups, |files|).verdict == AllUnique <==> |groups| == |files|
  {
    NoDuplicatesIffAllSeparate(files, groups);
  }

  /** Over an exact partition, all documents are duplicates of one another
      exactly when they form a single group of at least two. */
  lemma DecideAllDuplicate(files: seq<string>, groups: seq<seq<string>>)
    requires Distinct(files) && Partition(files, groups) && |files| > 0
    ensures Decide(groups, |files|).verdict == AllDuplicate <==> |groups| == 1 && |files| > 1
  {
    var n := |files|;
    var dups := DuplicateGroups(groups);
    PartitionSize(files, groups);
    if |dups| == 1 && |dups[0]| == n {
      assert dups[0] in dups;
      var g :| 0 <= g < |groups| && groups[g] == dups[0];
      TotalSizeAtLeast(groups, g);
    }
    if |groups| == 1 && n > 1 {
      assert TotalSize(groups) == TotalSize(groups[..0]) + |groups[0]|;
      assert DuplicateGroups(groups) == DuplicateGroups(groups[..0]) + [groups[0]];
    }
  }

  /** The counts an exact partition of a non-empty list fixes. */
  lemma PartitionCounts(files: seq<string>, groups: seq<seq<string>>)
    requires Distinct(files) && Partition(files, groups) && |files| > 0
    ensures 0 < |groups| <= |files|
    ensures Excess(DuplicateGroups(groups)) == |files| - |groups|
  {
    ExcessOverPartition(files, groups);
    ExactlyOneGroup(files, groups, files[0]);
    PartitionSize(files, groups);
    TotalSizeAtLeast(groups, 0);
  }

  /** The mixed score when the excess is the documents beyond one per group. */
  lemma MixedScore(groups: seq<seq<string>>, n: nat)
    requires n > 0 && 0 < |groups| <= n
    requires Excess(DuplicateGroups(groups)) == n - |groups|
    requires Decide(groups, n).verdict == HasDuplicates
    ensures |groups| < n
    ensures Decide(groups, n).score == Percent(n - |groups|, n) < 100
  {
    MixedBranch(groups, n);
    CappedShare(Excess(DuplicateGroups(groups)), |groups|, n);
  }

  /** Over an exact partition, a mixed outcome has fewer groups than
      documents and scores below 100 (`MixedScore` gives the exact share). */
  lemma MixedOverPartition(files: seq<string>, groups: seq<seq<string>>)
    requires Distinct(files) && Partition(files, groups) && |files| > 0
    requires Decide(groups, |files|).verdict == HasDuplicates
    ensures |groups| < |files|
    ensures Decide(groups, |files|).score < 100
  {
    PartitionCounts(files, groups);
    MixedScore(groups, |files|);
  }

  /** The score of a mixed outcome, capped at 100. */
  lemma MixedBranch(groups: seq<seq<string>>, n: nat)
    requires n > 0 && Decide(groups, n).verdict == HasDuplicates
    ensures Excess(DuplicateGroups(groups)) > 0
    ensures Decide(groups, n).score == Min(100, Percent(Excess(DuplicateGroups(groups)), n))
  {
    ExcessAtLeast(DuplicateGroups(groups));
  }

  /** When the excess is the documents beyond one per group, the cap does
      not bind. */
  lemma CappedShare(e: nat, g: nat, n: nat)
    requires 0 < g <= n && e == n - g && e > 0
    ensures g < n && Min(100, Percent(e, n)) == Percent(n - g, n) < 100
  {
  }

  /** Over an exact partition of the documents, the label is fixed by the
      number of groups alone. */
  lemma DecideOverPartition(files: seq<string>, groups: seq<seq<string>>)
    requires Distinct(files) && Partition(files, groups) && |files| > 0
    ensures Decide(groups, |files|).verdict == AllUnique <==> |groups| == |files|
    ensures Decide(groups, |files|).verdict == AllDuplicate <==> |groups| == 1 && |files| > 1
    ensures Decide(groups, |files|).verdict == HasDuplicates <==> 1 < |groups| < |files|
  {
    DecideAllUnique(files, groups);
    DecideAllDuplicate(files, groups);
    PartitionCounts(files, groups);
  }

  /** The verdict on a star grouping of at least two distinct documents, in
      terms of the similarity matrix: all unique exactly when no document
      reaches the threshold against a later one, all duplicates exactly when
      the first document reaches it against every other one, and otherwise
      a mixed outcome scoring below 100. */
  lemma DecideOverStarGrouping(files: seq<string>, sim: seq<seq<real>>, groups: seq<seq<string>>)
    requires Distinct(files) && |files| >= 2 && SquareMatrix(sim, |files|)
    requires IsStarGrouping(files, sim, DefaultThreshold, groups)
    ensures Decide(groups, |files|).verdict == AllUnique <==>
      forall i, j :: 0 <= i < j < |files| ==> sim[i][j] < DefaultThreshold
    ensures Decide(groups, |files|).verdict == AllDuplicate <==>
      forall j :: 0 < j < |files| ==> sim[0][j] >= DefaultThreshold
    ensures Decide(groups, |files|).verdict == HasDuplicates ==> 0 <= Decide(groups, |files|).score < 100
    ensures Decide(groups, |files|).verdict == HasDuplicates ==>
      |groups| < |files| && Decide(groups, |files|).score == Percent(|files| - |groups|, |files|)
  {
    DecideOverPartition(files, groups);
    if Decide(groups, |files|).verdict == HasDuplicates {
      MixedOverPartition(files, groups);
      PartitionCounts(files, groups);
      MixedScore(groups, |files|);
    }
    PartitionSize(files, groups);
    TotalSizeSingletons(groups);
    AllSingletonsIff(files, sim, DefaultThreshold, groups);
    OneGroupIff(files, sim, DefaultThreshold, groups);
  }

  /** A mixed score is the share of documents beyond one per group of the
      star grouping of `files`. */
  ghost predicate ScoredByGrouping(files: seq<string>, sim: seq<seq<real>>, score: nat)
    requires SquareMatrix(sim, |files|)
  {
    exists groups :: IsStarGrouping(files, sim, DefaultThreshold, groups)
      && |groups| < |files| && score == Percent(|files| - |groups|, |files|)
  }

  /** module_wrapper.py:20-93 `analyze_document_m1`, for uploads whose
      similarity matrix `sim` over the loaded documents (in load order) is
      given. */
  method AnalyzeDocumentsM1(paths: seq<string>, contents: seq<string>, sim: seq<seq<real>>)
    returns (o: Outcome)
    requires |paths| == |contents|
    requires |Load(paths, contents)| >= 2 ==> SquareMatrix(sim, |Load(paths, contents)|)
    ensures |paths| == 0 ==> o == Outcome(Error, 0)
    ensures |paths| > 0 && |Load(paths, contents)| < 2 ==> o == Outcome(Unique, 100)
    ensures |Load(paths, contents)| >= 2 ==>
      (o.verdict == AllUnique <==> forall i, j :: 0 <= i < j < |sim| ==> sim[i][j] < DefaultThreshold)
    ensures |Load(paths, contents)| >= 2 ==>
      (o.verdict == AllDuplicate <==> forall j :: 0 < j < |sim| ==> sim[0][j] >= DefaultThreshold)
    ensures |Load(paths, contents)| >= 2 ==>
      (o.verdict == HasDuplicates <==> o.verdict != AllUnique && o.verdict != AllDuplicate)
    ensures |Load(paths, contents)| >= 2 && o.verdict == HasDuplicates ==> 0 <= o.score < 100
    ensures |Load(paths, contents)| >= 2 && o.verdict == HasDuplicates ==>
      ScoredByGrouping(Names(Load(paths, contents)), sim, o.score)
    ensures o.verdict == AllUnique ==> o.score == 100
    ensures o.verdict == AllDuplicate ==> o.score == 5
  {
    if |paths| == 0 {
      return Outcome(Error, 0);
    }
    var corpus := Load(paths, contents);
    if |corpus| < 2 {
      return Outcome(Unique, 100);
    }
    var files := Names(corpus);
    var groups := GroupDocuments(files, sim, DefaultThreshold);
    o := Decide(groups, |files|);
    DecideOverStarGrouping(files, sim, groups);
    assert |files| == |corpus|;
    if o.verdict == HasDuplicates {
      assert ScoredByGrouping(files, sim, o.score) by {
        assert IsStarGrouping(files, sim, DefaultThreshold, groups);
      }
    }
  }
}
