/** M1.py `analyze_group`: within one group of at least two documents, a
    timeline conflict when the members together mention more than one year,
    and a policy contradiction when they together use "mandatory" or "must"
    as well as "optional". */
module Discrepancy {
  import opened Seqs

  /** What `\b(20\d{2})\b` can match: a year from 2000 to 2099. */
  type Year = y: nat | 2000 <= y <= 2099 witness 2000

  /** The closed set `mandatory|must|optional|may|prohibited`. */
  datatype Keyword = Mandatory | Must | Optional | May | Prohibited

  /** The years and modal keywords one normalized document mentions. */
  datatype DocFacts = DocFacts(years: set<Year>, rules: set<Keyword>)

  datatype Issue = TimelineConflict(years: seq<Year>) | PolicyContradiction

  /** Some member of the group mentions year `y`. */
  ghost predicate MentionsYear(group: seq<string>, facts: map<string, DocFacts>, y: Year)
    requires forall k :: 0 <= k < |group| ==> group[k] in facts
  {
    exists k :: 0 <= k < |group| && y in facts[group[k]].years
  }

  /** Some member of the group uses keyword `w`. */
  ghost predicate UsesKeyword(group: seq<string>, facts: map<string, DocFacts>, w: Keyword)
    requires forall k :: 0 <= k < |group| ==> group[k] in facts
  {
    exists k :: 0 <= k < |group| && w in facts[group[k]].rules
  }

  /** The members mention two different years. */
  ghost predicate TimelineDisagreement(group: seq<string>, facts: map<string, DocFacts>)
    requires forall k :: 0 <= k < |group| ==> group[k] in facts
  {
    exists y1: Year, y2: Year :: y1 != y2 && MentionsYear(group, facts, y1) && MentionsYear(group, facts, y2)
  }

  /** The members require something and also call something optional. */
  ghost predicate PolicyDisagreement(group: seq<string>, facts: map<string, DocFacts>)
    requires forall k :: 0 <= k < |group| ==> group[k] in facts
  {
    && (UsesKeyword(group, facts, Mandatory) || UsesKeyword(group, facts, Must))
    && UsesKeyword(group, facts, Optional)
  }

  /** `set().union(*(d["years"] ...))`: the years some member mentions. */
  function YearUnion(group: seq<string>, facts: map<string, DocFacts>): (r: set<Year>)
    requires forall k :: 0 <= k < |group| ==> group[k] in facts
    ensures forall y :: y in r <==> MentionsYear(group, facts, y)
  {
    if |group| == 0 then {}
    else
      MentionsSplit(group, facts);
      YearUnion(group[..|group| - 1], facts) + facts[group[|group| - 1]].years
  }

  /** `set().union(*(d["rules"] ...))`: the keywords some member uses. */
  function RuleUnion(group: seq<string>, facts: map<string, DocFacts>): (r: set<Keyword>)
    requires forall k :: 0 <= k < |group| ==> group[k] in facts
    ensures forall w :: w in r <==> UsesKeyword(group, facts, w)
  {
    if |group| == 0 then {}
    else
      UsesSplit(group, facts);
      RuleUnion(group[..|group| - 1], facts) + facts[group[|group| - 1]].rules
  }

  /** A group mentions a year when its members but the last do, or the last does. */
  lemma MentionsSplit(group: seq<string>, facts: map<string, DocFacts>)
    requires |group| > 0 && forall k :: 0 <= k < |group| ==> group[k] in facts
    ensures forall y :: MentionsYear(group, facts, y) <==>
              MentionsYear(group[..|group| - 1], facts, y) || y in facts[group[|group| - 1]].years
  {
    var init := group[..|group| - 1];
    forall y ensures MentionsYear(init, facts, y) ==> MentionsYear(group, facts, y) {
      if MentionsYear(init, facts, y) {
        var k :| 0 <= k < |init| && y in facts[init[k]].years;
        assert group[k] == init[k];
      }
    }
    forall y | MentionsYear(group, facts, y)
      ensures MentionsYear(init, facts, y) || y in facts[group[|group| - 1]].years
    {
      var k :| 0 <= k < |group| && y in facts[group[k]].years;
      if k < |init| {
        assert init[k] == group[k];
      }
    }
  }

  /** A group uses a keyword when its members but the last do, or the last does. */
  lemma UsesSplit(group: seq<string>, facts: map<string, DocFacts>)
    requires |group| > 0 && forall k :: 0 <= k < |group| ==> group[k] in facts
    ensures forall w :: UsesKeyword(group, facts, w) <==>
              UsesKeyword(group[..|group| - 1], facts, w) || w in facts[group[|group| - 1]].rules
  {
    var init := group[..|group| - 1];
    forall w ensures UsesKeyword(init, facts, w) ==> UsesKeyword(group, facts, w) {
      if UsesKeyword(init, facts, w) {
        var k :| 0 <= k < |init| && w in facts[init[k]].rules;
        assert group[k] == init[k];
      }
    }
    forall w | UsesKeyword(group, facts, w)
      ensures UsesKeyword(init, facts, w) || w in facts[group[|group| - 1]].rules
    {
      var k :| 0 <= k < |group| && w in facts[group[k]].rules;
      if k < |init| {
        assert init[k] == group[k];
      }
    }
  }

  /** `sorted(years)`, restricted to the years from `from` on. Every year has
      four digits, so text order and numeric order agree. */
  function SortedYears(s: set<Year>, from: nat): (r: seq<Year>)
    ensures forall i, j :: 0 <= i < j < |r| ==> r[i] < r[j]
    ensures forall i :: 0 <= i < |r| ==> r[i] >= from
    ensures forall y: Year :: y in r <==> y in s && y >= from
    decreases 2100 - from
  {
    if from > 2099 then []
    else if from >= 2000 && from in s then [from as Year] + SortedYears(s, from + 1)
    else SortedYears(s, from + 1)
  }

  /** A set with two different elements has more than one element, and back. */
  lemma MoreThanOne(s: set<Year>)
    ensures |s| > 1 <==> exists y1: Year, y2: Year :: y1 in s && y2 in s && y1 != y2
  {
    if |s| > 1 {
      var y1 :| y1 in s;
      assert |s - {y1}| > 0;
      var y2 :| y2 in s - {y1};
    }
    if exists y1: Year, y2: Year :: y1 in s && y2 in s && y1 != y2 {
      var y1: Year, y2: Year :| y1 in s && y2 in s && y1 != y2;
      assert {y1, y2} <= s;
      assert |{y1, y2}| == 2;
      SubsetCard({y1, y2}, s);
    }
  }

  lemma SubsetCard(a: set<Year>, b: set<Year>)
    requires a <= b
    ensures |a| <= |b|
  {
    assert b == a + (b - a);
  }

  /** The timeline part of the check: one conflict listing the years in
      order when there is more than one. */
  function TimelineIssues(years: set<Year>): (r: seq<Issue>)
    ensures |r| <= 1
    ensures |r| == 1 <==> |years| > 1
    ensures |r| == 1 ==> r[0].TimelineConflict?
    ensures |r| == 1 ==> forall i, j :: 0 <= i < j < |r[0].years| ==> r[0].years[i] < r[0].years[j]
    ensures |r| == 1 ==> forall y: Year :: y in r[0].years <==> y in years
  {
    if |years| > 1 then [TimelineConflict(SortedYears(years, 0))] else []
  }

  /** The policy part of the check. */
  function PolicyIssues(rules: set<Keyword>): (r: seq<Issue>)
    ensures r == [] || r == [PolicyContradiction]
    ensures r == [PolicyContradiction] <==> (Mandatory in rules || Must in rules) && Optional in rules
  {
    if (Mandatory in rules || Must in rules) && Optional in rules then [PolicyContradiction] else []
  }

  /** M1.py:91-113. */
  function AnalyzeGroup(group: seq<string>, facts: map<string, DocFacts>): (issues: seq<Issue>)
    requires |group| <= 1 || forall k :: 0 <= k < |group| ==> group[k] in facts
    ensures |group| <= 1 ==> issues == []
    ensures |issues| <= 2
    ensures forall k :: 1 <= k < |issues| ==> issues[k] == PolicyContradiction
    ensures |issues| == 2 ==> issues[0].TimelineConflict?
    ensures |group| >= 2 ==>
              ((|issues| > 0 && issues[0].TimelineConflict?) <==> TimelineDisagreement(group, facts))
    ensures |group| >= 2 ==> (PolicyContradiction in issues <==> PolicyDisagreement(group, facts))
    ensures |group| >= 2 && |issues| > 0 && issues[0].TimelineConflict? ==>
              && (forall i, j :: 0 <= i < j < |issues[0].years| ==> issues[0].years[i] < issues[0].years[j])
              && (forall y: Year :: y in issues[0].years <==> MentionsYear(group, facts, y))
  {
    if |group| <= 1 then []
    else
      var years := YearUnion(group, facts);
      var rules := RuleUnion(group, facts);
      UnionsMeaning(group, facts);
      var timeline := TimelineIssues(years);
      var policy := PolicyIssues(rules);
      IssuesConcat(timeline, policy);
      timeline + policy
  }

  /** The timeline part comes first and the policy part cannot be mistaken
      for it. */
  lemma IssuesConcat(timeline: seq<Issue>, policy: seq<Issue>)
    requires |timeline| <= 1 && (|timeline| == 1 ==> timeline[0].TimelineConflict?)
    requires policy == [] || policy == [PolicyContradiction]
    ensures |timeline + policy| <= 2
    ensures forall k :: 1 <= k < |timeline + policy| ==> (timeline + policy)[k] == PolicyContradiction
    ensures |timeline + policy| == 2 ==> (timeline + policy)[0].TimelineConflict?
    ensures (|timeline + policy| > 0 && (timeline + policy)[0].TimelineConflict?) <==> |timeline| == 1
    ensures |timeline| == 1 ==> (timeline + policy)[0] == timeline[0]
    ensures PolicyContradiction in timeline + policy <==> policy == [PolicyContradiction]
  {
    assert PolicyContradiction !in timeline;
  }

  /** What the two unions say about the members. */
  lemma UnionsMeaning(group: seq<string>, facts: map<string, DocFacts>)
    requires forall k :: 0 <= k < |group| ==> group[k] in facts
    ensures |YearUnion(group, facts)| > 1 <==> TimelineDisagreement(group, facts)
    ensures forall y: Year :: y in YearUnion(group, facts) <==> MentionsYear(group, facts, y)
    ensures PolicyDisagreement(group, facts) <==>
              (Mandatory in RuleUnion(group, facts) || Must in RuleUnion(group, facts)) && Optional in RuleUnion(group, facts)
  {
    MoreThanOne(YearUnion(group, facts));
  }

  function DigitValue(c: char): int {
    c as int - '0' as int
  }

  function Digit(d: nat): (c: char)
    requires d < 10
    ensures '0' <= c <= '9' && DigitValue(c) == d
  {
    ('0' as int + d) as char
  }

  /** A year as its four decimal digits, which read back as the year. */
  function YearText(y: Year): (r: string)
    ensures |r| == 4 && forall i :: 0 <= i < 4 ==> '0' <= r[i] <= '9'
    ensures DigitValue(r[0]) * 1000 + DigitValue(r[1]) * 100 + DigitValue(r[2]) * 10 + DigitValue(r[3]) == y
  {
    ['2', '0', Digit(y / 10 % 10), Digit(y % 10)]
  }

  /** `', '.join(...)` over the years' texts. */
  function JoinYears(ys: seq<Year>): string {
    if |ys| == 0 then ""
    else if |ys| == 1 then YearText(ys[0])
    else YearText(ys[0]) + ", " + JoinYears(ys[1..])
  }

  /** The joined text: each year's four digits at its own offset, and ", "
      between two neighbours. */
  lemma JoinYearsLayout(ys: seq<Year>)
    ensures |ys| == 0 ==> JoinYears(ys) == []
    ensures |ys| > 0 ==> YearsAt(JoinYears(ys), ys, 0)
  {
    if |ys| > 0 {
      JoinYearsLength(ys);
      forall k | 0 <= k < |ys| ensures YearSlot(JoinYears(ys), 0, k) == YearText(ys[k]) {
        JoinYearsYear(ys, k);
      }
      forall k | 0 <= k < |ys| - 1 ensures SepSlot(JoinYears(ys), 0, k) == ", " {
        JoinYearsSep(ys, k);
      }
    }
  }

  lemma {:induction false} JoinYearsLength(ys: seq<Year>)
    requires |ys| > 0
    ensures |JoinYears(ys)| == 6 * |ys| - 2
  {
    if |ys| > 1 {
      JoinYearsLength(ys[1..]);
    }
  }

  /** The `k`-th year sits at offset `6k` of the joined text. */
  lemma {:induction false} JoinYearsYear(ys: seq<Year>, k: nat)
    requires k < |ys|
    ensures 6 * k + 4 <= |JoinYears(ys)| && YearSlot(JoinYears(ys), 0, k) == YearText(ys[k])
    decreases k
  {
    JoinYearsLength(ys);
    if |ys| == 1 {
      assert JoinYears(ys)[0..4] == YearText(ys[0]);
    } else {
      var head, rest := YearText(ys[0]) + ", ", JoinYears(ys[1..]);
      assert JoinYears(ys) == head + rest;
      if k == 0 {
        PrefixSlice(head, rest, 0, 4);
      } else {
        JoinYearsYear(ys[1..], k - 1);
        AppendSlice(head, rest, 6 * (k - 1), 6 * (k - 1) + 4);
      }
    }
  }

  /** ", " follows the `k`-th year when another year comes after it. */
  lemma {:induction false} JoinYearsSep(ys: seq<Year>, k: nat)
    requires k < |ys| - 1
    ensures 6 * k + 6 <= |JoinYears(ys)| && SepSlot(JoinYears(ys), 0, k) == ", "
    decreases k
  {
    JoinYearsLength(ys);
    var head, rest := YearText(ys[0]) + ", ", JoinYears(ys[1..]);
    assert JoinYears(ys) == head + rest;
    if k == 0 {
      PrefixSlice(head, rest, 4, 6);
    } else {
      JoinYearsSep(ys[1..], k - 1);
      AppendSlice(head, rest, 6 * (k - 1) + 4, 6 * (k - 1) + 6);
    }
  }

  const TimelinePrefix: string := "Timeline conflict detected: "

  const PolicyLine: string := "Policy contradiction: mandatory vs optional statements found"

  /** The line the report prints for an issue: a fixed sentence for a policy
      contradiction; for a timeline conflict, a fixed prefix and then each
      year's four digits, in order, separated by ", ". */
  function IssueText(issue: Issue): (r: string)
    ensures issue.PolicyContradiction? ==> r == PolicyLine
    ensures issue.TimelineConflict? ==> |r| >= 28 && r[..28] == TimelinePrefix
    ensures issue.TimelineConflict? && |issue.years| > 0 ==> YearsAt(r, issue.years, 28)
  {
    match issue
    case TimelineConflict(ys) =>
      TimelineLayout(ys);
      TimelinePrefix + JoinYears(ys)
    case PolicyContradiction => PolicyLine
  }

  /** From offset `at` on, `r` holds each year of `ys` as four digits, with
      ", " between neighbours, and nothing after the last. */
  predicate YearsAt(r: string, ys: seq<Year>, at: nat)
    requires |ys| > 0
  {
    && |r| == at + 6 * |ys| - 2
    && (forall k :: 0 <= k < |ys| ==> YearSlot(r, at, k) == YearText(ys[k]))
    && (forall k :: 0 <= k < |ys| - 1 ==> SepSlot(r, at, k) == ", ")
  }

  /** The four characters where the `k`-th year is printed, from offset `at`. */
  function YearSlot(r: string, at: nat, k: nat): string
    requires at + 6 * k + 4 <= |r|
  {
    r[at + 6 * k..at + 6 * k + 4]
  }

  /** The two characters after the `k`-th year. */
  function SepSlot(r: string, at: nat, k: nat): string
    requires at + 6 * k + 6 <= |r|
  {
    r[at + 6 * k + 4..at + 6 * k + 6]
  }

  lemma TimelineLayout(ys: seq<Year>)
    ensures |TimelinePrefix + JoinYears(ys)| >= 28
    ensures (TimelinePrefix + JoinYears(ys))[..28] == TimelinePrefix
    ensures |ys| > 0 ==> YearsAt(TimelinePrefix + JoinYears(ys), ys, 28)
  {
    var j := JoinYears(ys);
    var r := TimelinePrefix + j;
    assert |TimelinePrefix| == 28;
    assert r[..28] == TimelinePrefix;
    if |ys| > 0 {
      JoinYearsLayout(ys);
      forall k | 0 <= k < |ys| ensures YearSlot(r, 28, k) == YearSlot(j, 0, k) {
        AppendSlice(TimelinePrefix, j, 6 * k, 6 * k + 4);
      }
      forall k | 0 <= k < |ys| - 1 ensures SepSlot(r, 28, k) == SepSlot(j, 0, k) {
        AppendSlice(TimelinePrefix, j, 6 * k + 4, 6 * k + 6);
      }
    }
  }

  /** The membership clause of `SortedYears`, for one year. */
  lemma SortedYearsMember(s: set<Year>, from: nat, y: Year)
    ensures y in SortedYears(s, from) <==> y in s && y >= from
  {
  }

  /** Two years, sorted. */
  lemma SortedTwoYears(a: Year, b: Year)
    requires a < b
    ensures SortedYears({a, b}, 0) == [a, b]
  {
    var p: seq<int> := SortedYears({a, b}, 0);
    SortedTwoMembers(a, b, p);
    IncreasingUnique(p, [a, b]);
  }

  /** The years `SortedYears` lists for a two-year set, as integers. */
  lemma SortedTwoMembers(a: Year, b: Year, p: seq<int>)
    requires a < b && p == SortedYears({a, b}, 0)
    ensures forall i, j :: 0 <= i < j < |p| ==> p[i] < p[j]
    ensures forall x :: x in p <==> x in [a, b]
  {
    var s := {a, b};
    SortedYearsMember(s, 0, a);
    SortedYearsMember(s, 0, b);
    forall k | 0 <= k < |p| ensures p[k] == a || p[k] == b {
      SortedYearsMember(s, 0, p[k] as Year);
    }
  }

  /** Two documents, one mentioning year `a` and "mandatory", the other a
      later year `b` and "optional". */
  function PairFacts(a: Year, b: Year): map<string, DocFacts> {
    map["a" := DocFacts({a}, {Mandatory}), "b" := DocFacts({b}, {Optional})]
  }

  lemma PairUnions(a: Year, b: Year)
    ensures YearUnion(["a", "b"], PairFacts(a, b)) == {a, b}
    ensures RuleUnion(["a", "b"], PairFacts(a, b)) == {Mandatory, Optional}
  {
    var group, f := ["a", "b"], PairFacts(a, b);
    assert f["a"] == DocFacts({a}, {Mandatory}) && f["b"] == DocFacts({b}, {Optional});
    assert group[..1] == ["a"] && group[..1][..0] == [];
    assert YearUnion(group[..1][..0], f) == {} && RuleUnion(group[..1][..0], f) == {};
    assert YearUnion(group[..1], f) == {} + {a};
    assert RuleUnion(group[..1], f) == {} + {Mandatory};
  }

  /** Such a pair raises both issues, the timeline one first, with the two
      years in order. */
  lemma ConflictingPair(a: Year, b: Year)
    requires a < b
    ensures AnalyzeGroup(["a", "b"], PairFacts(a, b)) == [TimelineConflict([a, b]), PolicyContradiction]
  {
    PairUnions(a, b);
    SortedTwoYears(a, b);
    assert |{a, b}| == 2;
    assert TimelineIssues({a, b}) == [TimelineConflict([a, b])];
    assert PolicyIssues({Mandatory, Optional}) == [PolicyContradiction];
  }

  /** The report line for a conflict between 2021 and 2023. */
  lemma TwoYearConflictText()
    ensures IssueText(TimelineConflict([2021, 2023])) == "Timeline conflict detected: 2021, 2023"
  {
    JoinTwoYears(2021, 2023);
    assert YearText(2021) == "2021" by {
      assert Digit(2) == '2' && Digit(1) == '1';
    }
    assert YearText(2023) == "2023" by {
      assert Digit(2) == '2' && Digit(3) == '3';
    }
    assert JoinYears([2021, 2023]) == "2021, 2023";
    TwoYearLiteral();
  }

  lemma TwoYearLiteral()
    ensures TimelinePrefix + "2021, 2023" == "Timeline conflict detected: 2021, 2023"
  {
  }

  lemma JoinTwoYears(a: Year, b: Year)
    ensures JoinYears([a, b]) == YearText(a) + ", " + YearText(b)
  {
    assert [a, b][1..] == [b];
  }

  /** Members that all carry the same facts raise an issue exactly when that
      one document already mentions two years, or already says both
      "mandatory"/"must" and "optional": the check compares the union of the
      members' facts, not one document against another. */
  lemma SameFactsIssues(group: seq<string>, facts: map<string, DocFacts>, f: DocFacts)
    requires |group| >= 2
    requires forall k :: 0 <= k < |group| ==> group[k] in facts && facts[group[k]] == f
    ensures AnalyzeGroup(group, facts) == [] <==>
              |f.years| <= 1 && !((Mandatory in f.rules || Must in f.rules) && Optional in f.rules)
  {
    assert YearUnion(group, facts) == f.years;
    assert RuleUnion(group, facts) == f.rules;
  }
}
