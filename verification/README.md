# Similarix M1 duplicate detection, modelled in Dafny

Similarix's module M1 checks a batch of uploaded documents for duplicates.
The uploads are read and cleaned. A similarity matrix is built over them.
Documents are then grouped by a greedy "star" rule, and each group is checked
for inconsistencies. The result is a report, and a verdict for the batch:
`ALL_UNIQUE`, `ALL_DUPLICATE` or `HAS_DUPLICATES`, with a score from 0 to 100.

This project models that pipeline with the similarity matrix given as an
input. The files follow the modules of the program:

- `seqs.dfy` (`Seqs`): sequence helpers. `IndexOf` is Python's `list.index`.
- `grouping.dfy` (`Grouping`): `group_documents` as an imperative method with
  loop invariants. Its contract says what a star grouping is: an exact
  partition; seeds taken in list order; members close enough to their seed;
  members in list order; no close, still-unused document left out.
- `grouping_properties.dfy` (`GroupingProperties`): consequences of that
  contract. The main one is that the contract determines the grouping
  completely (`StarGroupingUnique`).
- `grouping_scenarios.dfy` (`GroupingScenarios`): concrete groupings derived
  from the contract alone. One is three documents where only the first two
  are similar.
  Another is a chain of similarities whose grouping depends on input order.
- `group_shapes.dfy` (`GroupShapes`): duplicate groups and the
  "duplicate count". Also what the shape of a star grouping says about the
  matrix: all singletons, or one single group.
- `labels.dfy` (`Labels`): `similarity_label`'s five buckets.
- `discrepancy.dfy` (`Discrepancy`): `analyze_group`, over per-document sets
  of years and modal keywords.
- `report.dfy` (`Report`): `generate_report` as a structured value. It has
  one section per group, the pair lines in loop order, the issues, the matrix
  mean and the two counters.
- `text_cleaning.dfy` (`TextCleaning`): `clean_text`, which collapses
  whitespace, strips and lowercases.
- `pdf_safe.dfy` (`PdfSafe`): `make_pdf_safe`. It is the ten sequential
  `replace` calls followed by the Latin-1 filter, proved equal to a
  per-character map.
- `verdict.dfy` (`Verdict`): the M1 part of `analyze_document_m1`. This
  covers loading the uploads into the dictionary of cleaned texts, the early
  exits, and the label and score.

Document ids are duplicate-free in every caller, because they are the keys
of a dictionary. `GroupDocuments` therefore requires `Distinct(files)`.

`analyze_group` compares the union of the members' years and keywords, not
the members with each other. So two copies of one text that itself mentions two different years, or says both
"must" and "optional", do raise an issue. The model follows the code, and
`Discrepancy.SameFactsIssues` states exactly when identical members raise
one.

The `HAS_DUPLICATES` score is "duplicate count over total, times 100",
capped at 100. On a star grouping over an exact partition it is always below
100 (`Verdict.MixedOverPartition`), so the cap never binds.

## Model

| member | source | states |
|---|---|---|
| Seqs.IndexOf | M1.py:167-168 | `files.index(x)` is the position of the first occurrence of `x` |
| Grouping.GroupDocuments | M1.py:70-87 | The groups form an exact partition of the ids. Each group's seed is the first id not in an earlier group. Every other member scores at or above the threshold against the seed. Members appear in list order. No unused id close enough to a seed is left out of its group |
| Grouping.GrowGroup | M1.py:77-83 | The inner scan starts the group with the seed. It adds, in list order, exactly the still-unused ids scoring at or above the threshold against the seed, and none twice. `used` grows by exactly the group |
| Grouping.OpenGroup | M1.py:73-85 | After the scan for seed `i`, all ids before `i` are grouped, the used-set is the grouped ids, and no id occurs twice |
| Grouping.CloseGroup | M1.py:85 | Appending the closed group keeps the seed, star, order and maximality facts for all groups so far |
| Grouping.Covered | M1.py:73-87 | Once every position has been visited, the groups are an exact partition of the ids |
| GroupingProperties.ExactlyOneGroup | M1.py:71-85 | Every id is in exactly one group, and occurs there once |
| GroupingProperties.PartitionSize | M1.py:70-87 | The group sizes add up to the number of ids |
| GroupingProperties.SeedsIncrease | M1.py:73-77 | Seeds appear in strictly increasing list position |
| GroupingProperties.MembersAfterSeed | M1.py:80-83 | Every non-seed member comes after its seed in the list |
| GroupingProperties.AscendingUnique | M1.py:80-83 | Two groups holding the same ids in list order are the same sequence |
| GroupingProperties.PrefixesAgree | M1.py:73-85 | Two groupings meeting the contract agree on every prefix |
| GroupingProperties.StarGroupingUnique | M1.py:70-87 | The contract determines the grouping: two groupings meeting it are equal |
| GroupingScenarios.PairThenSingle | M1.py:70-87 | For three ids where the second but not the third reaches the threshold against the first, `[[x, y], [z]]` meets the contract |
| GroupingScenarios.SingleGroup | M1.py:70-87 | For three ids where both later ids reach the threshold against the first, `[[x, y, z]]` meets the contract |
| GroupingScenarios.WalkThrough | M1.py:70-87 | With sim(A,B) = 0.95, sim(A,C) = 0.40 and threshold 0.75, the grouping is `[[A, B], [C]]` |
| GroupingScenarios.ChainFromA | M1.py:80-83 | With sim(A,B) = sim(B,C) = 0.8 and sim(A,C) = 0.1, seeded by A, C is compared with A only and starts its own group |
| GroupingScenarios.ChainFromB | M1.py:80-83 | With the same scores in the order B, A, C, all three form one group, although A and C are below the threshold: the grouping depends on the input order |
| GroupShapes.DuplicateGroups | M1.py:186 | Keeps exactly the groups with more than one member. It is empty exactly when every group has at most one member |
| GroupShapes.DuplicateGroupsCount | M1.py:186 | The number of duplicate groups is the number of positions holding a group with more than one member |
| GroupShapes.DuplicateGroupsPositions | module_wrapper.py:75 | The duplicate groups are exactly the groups with more than one member, each taken once, in their original order |
| GroupShapes.Excess | module_wrapper.py:86 | `sum(len(g) - 1)` over the duplicate groups is their total size minus their number |
| GroupShapes.TotalSizeExcess | module_wrapper.py:86 | With no empty group, the members number one per group plus `sum(len(g) - 1)` over the duplicate groups |
| GroupShapes.ExcessOverPartition | module_wrapper.py:86 | Over an exact partition, the duplicate count is the number of documents minus the number of groups |
| GroupShapes.NoDuplicatesIffAllSeparate | module_wrapper.py:75-77 | Over an exact partition, there is no duplicate group exactly when there are as many groups as documents |
| GroupShapes.AllSingletonsIff | M1.py:70-87 | In a star grouping, every group is a singleton exactly when no document reaches the threshold against a later one |
| GroupShapes.CloseSeedPair | M1.py:80-83 | A group with a second member exhibits an earlier/later pair of documents at or above the threshold |
| GroupShapes.SingletonsApart | M1.py:73-83 | When all groups are singletons, every earlier document scores below the threshold against every later one |
| GroupShapes.FirstGroupHoldsAll | M1.py:77-83 | If the first document reaches the threshold against all others, the first group holds every document |
| GroupShapes.OneGroupIff | M1.py:70-87 | In a star grouping there is a single group exactly when the first document reaches the threshold against every other one |
| Labels.LabelOf | M1.py:117-127 | Every score, negative ones included, gets a label whose half-open bucket contains it; the lowest cut-off is the double value of `0.30`, which is what the float comparison tests against |
| Labels.LabelIffBucket | M1.py:117-127 | The buckets do not overlap: a score's label is exactly the bucket containing it |
| Labels.LabelMonotone | M1.py:117-127 | A higher score never gets a less similar label |
| Labels.LabelBoundaries | M1.py:118-127 | 0.90 is Fully Identical, 0.8999 and 0.75 are Highly Similar, 0.7499 and 0.50 are Moderately Similar, 0.30 and the double nearest 0.30 (just below 3/10) are Slightly Similar, and 0.2999, 0.0 and -0.5 are Distinct Content |
| Discrepancy.YearUnion | M1.py:105 | A year is in the union exactly when some member mentions it |
| Discrepancy.RuleUnion | M1.py:109 | A keyword is in the union exactly when some member uses it |
| Discrepancy.SortedYears | M1.py:107 | `sorted(years)` lists exactly the years of the set, in strictly increasing order |
| Discrepancy.TimelineIssues | M1.py:106-107 | There is one timeline issue exactly when more than one year is mentioned. It lists exactly those years, sorted |
| Discrepancy.AnalyzeGroup | M1.py:91-113 | A group of at most one member has no issues. Otherwise there are at most two issues and the timeline issue comes first. It is present exactly when the members mention two different years, and lists those years sorted. With two issues, the first is the timeline conflict. The policy issue is present exactly when some member requires and some member calls something optional |
| Discrepancy.IssuesConcat | M1.py:103-113 | The timeline part comes first, and the policy part cannot be mistaken for it |
| Discrepancy.UnionsMeaning | M1.py:105-111 | The union tests are the member-wise disagreements |
| Discrepancy.ConflictingPair | M1.py:103-113 | Two documents with years a < b, one saying "mandatory" and the other "optional", raise exactly `[TimelineConflict([a, b]), PolicyContradiction]` |
| Discrepancy.YearText | M1.py:107 | A year prints as four decimal digits whose value is the year |
| Discrepancy.JoinYearsLayout | M1.py:107 | `', '.join` over the years puts each year's four digits at offset `6k`, with ", " between neighbours, and nothing else |
| Discrepancy.IssueText | M1.py:107-111 | A policy issue prints as the fixed contradiction line. A timeline issue prints as "Timeline conflict detected: " followed by its years laid out as `', '.join` lays them |
| Discrepancy.TwoYearConflictText | M1.py:107 | The conflict between 2021 and 2023 prints as "Timeline conflict detected: 2021, 2023" |
| Discrepancy.SameFactsIssues | M1.py:105-111 | Members with identical facts raise no issue exactly when that one document mentions at most one year and does not both require and call something optional |
| Report.PairsFromMembers | M1.py:165-166 | The nested loops from row `i` visit exactly the pairs `i <= p.0 < p.1 < k` |
| Report.PairsFromOrdered | M1.py:165-166 | The nested loops visit pairs in strictly increasing lexicographic order |
| Report.IndexPairs | M1.py:165-166 | The pair loop over a group of `k` visits exactly the pairs `i < j < k`, in lexicographic order |
| Report.IndexPairsOnce | M1.py:165-166 | No pair of positions is visited twice |
| Report.LineFor | M1.py:167-171 | A line names both members, carries the matrix score looked up through `files.index`, and a label whose bucket contains that score |
| Report.PairLines | M1.py:163-172 | The similarity lines of a group are one line per visited pair, in loop order |
| Report.PairLinesCount | M1.py:165-166 | A group of `k` members gets `k(k-1)/2` lines |
| Report.PairLinesComplete | M1.py:165-172 | Every pair of members `i < j` gets a line naming them, earlier member first, with their matrix score |
| Report.PairLinesOnce | M1.py:165-172 | In a group without repeated names, no two lines name the same ordered pair |
| Report.MatrixMean | M1.py:184 | The mean of an empty matrix is not a number; otherwise it is a number |
| Report.MeanBiased | M1.py:184 | The reported mean counts the unit diagonal and every off-diagonal score twice: `(n + 2·upper) / n²` |
| Report.MeanAtLeastDiagonal | M1.py:184 | With non-negative scores, the reported mean is at least `1/n`, however dissimilar the documents are |
| Report.SectionOf | M1.py:149-180 | A section carries its number and its documents. It is DUPLICATE exactly when the group has more than one member. A unique section has no pair lines and no issues |
| Report.SectionLines | M1.py:163-172 | A duplicate section lists every pair of its members, earlier member first, with their matrix score |
| Report.SectionIssues | M1.py:174-178 | A duplicate section reports a timeline conflict exactly when its members mention different years, and a policy contradiction exactly when one requires and one calls something optional |
| Report.Sections | M1.py:149 | The loop over `enumerate(groups, 1)` yields one section per group |
| Report.SectionsInOrder | M1.py:149-150 | There is one section per group, in group order, numbered from 1 |
| Report.GenerateReport | M1.py:131-202 | The report records the document count and one section per group, in order. Its duplicate-group counter is the number of groups with more than one member, and the two counters add up to the number of groups. Its average is the matrix mean |
| Report.DuplicateSectionsCounted | M1.py:153-188 | The duplicate counter is 0 exactly when every section is classified UNIQUE |
| Report.CountersOverPartition | M1.py:186-188 | Over an exact partition, there are no duplicate groups exactly when the unique count equals the number of documents |
| TextCleaning.Lower | M1.py:17 | `lower()` maps each character through the character-wise lowercasing and keeps the length |
| TextCleaning.LowerChar | M1.py:17 | Lowercasing removes capitals, changes nothing else, and keeps whitespace where it is |
| TextCleaning.TrimLeft | M1.py:17 | `lstrip()` drops exactly the leading whitespace |
| TextCleaning.TrimRight | M1.py:17 | `rstrip()` drops exactly the trailing whitespace |
| TextCleaning.Strip | M1.py:17 | `strip()` gives a slice with no whitespace at either end |
| TextCleaning.StripFacts | M1.py:17 | Stripping keeps the words, and keeps single plain spacing |
| TextCleaning.Collapse | M1.py:17 | `re.sub(r'\s+', ' ', …)` leaves only single plain spaces, keeps the non-whitespace characters in order, starts with whitespace exactly when the input does, and is empty exactly for empty input |
| TextCleaning.CollapseLast | M1.py:17 | The collapsed text ends in whitespace exactly when the input does, so a trailing run is kept as one space; with Collapse and CollapseWords this fixes the `re.sub` result completely |
| TextCleaning.CollapseWords | M1.py:17 | Replacing every whitespace run by one space keeps the words (as `str.split()` finds them) exactly: none is split, merged or dropped |
| TextCleaning.CollapseFixed | M1.py:17 | Text already in single plain spaces is not changed by collapsing |
| TextCleaning.LowerFacts | M1.py:17 | Lowercasing keeps the spacing and the words, and removes every capital |
| TextCleaning.CleanText | M1.py:15-17 | The output is the input's words, joined by single spaces and lowercased. It has no whitespace at either end, no two whitespace characters in a row, only plain spaces and no capitals. It is empty exactly when the input is all whitespace, empty input included |
| TextCleaning.WordsStrip | M1.py:17 | `strip()` keeps the words |
| TextCleaning.JoinSpaceWords | M1.py:17 | A stripped, single-spaced text is its words joined by single spaces |
| TextCleaning.WordsJoinSpace | M1.py:17 | Splitting words joined by single spaces gives the same words back |
| TextCleaning.EmptyIffAllSpace | M1.py:17 | Collapsing then stripping leaves nothing exactly when the input was all whitespace |
| TextCleaning.CleanTextIdempotent | M1.py:15-17 | Cleaning an already cleaned text changes nothing |
| PdfSafe.ReplaceChar | M1.py:220 | `s.replace(k, v)` removes every `k` when `v` has none, and changes nothing when `s` has no `k` |
| PdfSafe.KeepLatin1 | M1.py:221 | The Latin-1 round trip leaves only Latin-1 characters, and leaves Latin-1 text unchanged |
| PdfSafe.ReplacementsKeyFree | M1.py:207-218 | No replacement text contains a key of the table |
| PdfSafe.ReplacementsKeysDistinct | M1.py:207-218 | No key occurs twice in the table |
| PdfSafe.ReplaceAll | M1.py:219-220 | The replacement loop leaves text containing none of the table's keys unchanged |
| PdfSafe.ReplaceAllSingle | M1.py:219-220 | On one character, the loop over the table acts as a lookup of that character |
| PdfSafe.KeyValue | M1.py:207-218 | Each table entry maps its key to the per-character reference result |
| PdfSafe.LookupReplacements | M1.py:207-221 | Table lookup followed by the Latin-1 filter equals the per-character reference for every character |
| PdfSafe.MakePdfSafe | M1.py:206-221 | The output contains only Latin-1 characters |
| PdfSafe.MakePdfSafeCharwise | M1.py:206-221 | The sequential replacements followed by the filter equal the per-character reference map |
| PdfSafe.SafeCharsOutput | M1.py:206-221 | The output is pure Latin-1 and contains none of the table's keys |
| PdfSafe.MakePdfSafeIdempotent | M1.py:206-221 | The output is Latin-1, Latin-1 input is unchanged, and applying the function twice equals applying it once |
| Verdict.Basename | module_wrapper.py:51 | The file name is the suffix of the path after the last '/', and contains no '/' |
| Verdict.Substantial | module_wrapper.py:50 | A kept upload has more than 30 characters and at least one non-whitespace character |
| Verdict.Put | module_wrapper.py:52 | Storing under a new name appends it. Storing under a known name keeps its position and replaces its text. Other entries are untouched and names stay distinct |
| Verdict.KeptMembers | module_wrapper.py:47-52 | An entry is kept exactly when some upload with more than 30 characters of stripped text produced it, under its file name and with its cleaned text |
| Verdict.Kept | module_wrapper.py:47-52 | At most one entry per upload passes the length test |
| Verdict.Insert | module_wrapper.py:52 | Storing entries one by one into the dictionary leaves each name at most once |
| Verdict.Load | module_wrapper.py:46-55 | The dictionary has distinct names and at most one entry per upload |
| Verdict.LoadNames | module_wrapper.py:46-55 | The dictionary's names are exactly the file names of the uploads with more than 30 characters of stripped text |
| Verdict.InsertLastWins | module_wrapper.py:52 | Every dictionary entry is the last stored entry with its name |
| Verdict.Percent | module_wrapper.py:87 | A part below the whole is below 100 percent |
| Verdict.QuotientBounds | module_wrapper.py:87 | The exact percentage is the rounded-down quotient |
| Verdict.Decide | module_wrapper.py:75-89 | The label is one of the three success labels. It is ALL_UNIQUE, scoring 100, exactly when no group has more than one member. ALL_DUPLICATE scores 5, and HAS_DUPLICATES scores between 0 and 100 |
| Verdict.DecideAllUnique | module_wrapper.py:77-80 | Over an exact partition, ALL_UNIQUE exactly when there are as many groups as documents |
| Verdict.DecideAllDuplicate | module_wrapper.py:81-84 | Over an exact partition, ALL_DUPLICATE exactly when there is a single group of at least two |
| Verdict.MixedBranch | module_wrapper.py:85-87 | A mixed outcome has a positive duplicate count, and its score is `min(100, ⌊100·dup/n⌋)` |
| Verdict.MixedOverPartition | module_wrapper.py:85-89 | Over an exact partition, a mixed outcome has fewer groups than documents and scores below 100 |
| Verdict.DecideOverPartition | module_wrapper.py:75-89 | Over an exact partition, the label is fixed by the number of groups alone, and the three labels are exclusive |
| Verdict.DecideOverStarGrouping | module_wrapper.py:66-89 | For a star grouping of at least two documents: ALL_UNIQUE exactly when no document reaches the threshold against a later one; ALL_DUPLICATE exactly when the first reaches it against every other one; otherwise a mixed outcome with fewer groups than documents, scoring the percentage of documents minus groups over documents, below 100 |
| Verdict.AnalyzeDocumentsM1 | module_wrapper.py:37-89 | No uploads give ERROR with score 0. Fewer than two kept documents give UNIQUE with score 100. Otherwise the label is decided by the matrix as in `DecideOverStarGrouping`: ALL_UNIQUE scores 100, ALL_DUPLICATE scores 5, and HAS_DUPLICATES has a star grouping with fewer groups than documents and scores their difference as a percentage of the documents. The three success labels are exclusive |

## Left out

- Building the similarity matrix (`build_similarity`, M1.py:61-66) uses a hashing vectorizer and cosine similarity. The matrix is an input. Its shape is a precondition, and its symmetry and unit diagonal are preconditions where a lemma needs them.
- Reading files (`read_file`, M1.py:38-57) is file and library I/O. The read contents are inputs, and an unreadable file is an empty content.
- The label-number removal in `clean_text` (M1.py:16) is a regular expression over text. The model cleans whitespace and case only.
- TextCleaning.Lower: lowercases ASCII letters only, because Python's full Unicode case mapping is not modelled.
- The year and keyword extraction in `analyze_group` (M1.py:97-98) is a regular expression. Each document's year set and keyword set are inputs. Years are the numbers 2000-2099 written in ASCII digits. `\d` also matches other Unicode decimal digits, and years written with those are not modelled.
- The report's text is abstract: fixed prose lines, the hard-coded "Grouping Threshold: 75%" header, `:.2f` formatting, bullets and separators. The report is a structured value with the same sections, lines, issues and counters.
- Labels.LabelOf: scores are exact reals rather than doubles. The lowest cut-off is the exact value of the double that the literal `0.30` denotes, just below 3/10. The cut-offs 0.50 and 0.75 are doubles exactly, and no double lies between 0.90 and the double nearest it. So every score a double can hold gets the label the float comparisons give it. Reals that are not doubles get labels too, but the program never sees them.
- Report.MatrixMean: exact real arithmetic instead of floating point, so rounding of the mean is not modelled.
- Verdict.Decide: the score is the exact `⌊100·dup/n⌋`. The source computes `int((dup / n) * 100)` in floating point, which can be one lower (for example 29 of 100 gives 28.999…, truncated to 28).
- The message strings of `analyze_document_m1` and all logging output are left out.
- The catch-all `except` of `analyze_document_m1` (module_wrapper.py:95-99) and the per-file one (module_wrapper.py:54-55) turn library exceptions into ERROR or a skipped file. No modelled step raises.
- `generate_report`'s result in `analyze_document_m1` (module_wrapper.py:72) is unused there, so `AnalyzeDocumentsM1` does not build it.
- `summarize`, `convert_txt_to_pdf`, the email functions and `main` in M1.py are I/O, or are unused by the duplicate check.
- app.py, M2.py, M3.py, static/js/main.js and tools/test_upload.py are not part of this model: web routes, machine-learning scoring, UI and an HTTP client.
