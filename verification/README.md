# Lines-to-groups splitter, modelled in Dafny

The Java program `LinesToGroupsSplitter` reads a text file. Each line is a row of `;`-separated fields, and each field is a digit string between two wrapper characters (normally quotes). The program partitions the rows into groups. Two rows land in the same group when both hold the same non-empty field in the same column, and that (word, column) pair occurs in at least two rows: a *condition*. The relation is closed transitively. Rows matched by no condition are reported as single-row groups.

This project models that pipeline stage by stage. Each stage is a method whose loops mirror the Java code. Its contract is a declarative reference predicate, and lemmas relate the stages to each other and to the grouping they are meant to compute.

| module | Java | what it models |
|---|---|---|
| `Fields` | `isWordValid`, `isRowValid`, `String.split(";")` | field and row validation, including the `substring` exception |
| `Ingestion` | `readFile` | stored rows, `maxColumns`, word frequencies, duplicated words |
| `Conditions` | `formConditions` | the (word, column) conditions |
| `GroupIds` | `findGroupsForEachString`, `createGroups` | condition indices, group ids `k * (maxColumns + 1) + i`, the row-to-ids map and its reverse |
| `Linking` | — | rows linked through shared group ids: the transitive relation the groups must capture |
| `Consolidation` | `mergeGroups` (intended behaviour) | union-find over a flat representative map |
| `AsWritten` | `mergeGroups` (as written) | the code exactly as written, with inputs that exhibit its defects |
| `Reporting` | `writeInfoToFile` | sorting by size, block numbering, single-row blocks, counts |
| `Pipeline` | `main` | the whole run, determinism, the partition property, a worked example |
| `Scenarios` | `readFile`, `formConditions`, `findGroupsForEachString` | the lines behind each as-written scenario, run through the first stages to the row-to-ids map the scenario starts from |

Hash-map iteration orders cannot be observed from the source. These orders are the order of `conditions.entrySet()`, of the row-to-ids map, and of the group map. They are modelled as arbitrary choices, using `:|` inside the loops or an explicit order parameter. The properties proved hold for every such order.

Java strings are sequences of UTF-16 code units. `length()`, `substring` and `split` count in code units, so the model's lines and fields are sequences of code units (`Fields.JavaString`), not of Unicode characters. A character outside the Basic Multilingual Plane takes two code units. `Fields.Utf16` encodes characters into code units and is used to write the example lines.

What the code does at its edges:

- The code does not remove repeated lines. Identical accepted lines become distinct rows.
- A field is valid only if it is at least two UTF-16 code units long and every code unit between the first and the last is an ASCII digit. `isRowValid` checks the fields from left to right and stops at the first field that is not valid. A field holding a `.` or any other non-digit code unit makes the line invalid, and the line is skipped, when the scan reaches that field, that is, when every earlier field is valid. For example, `"1.";;"2"` is skipped.
- An empty field, or a one-code-unit field, makes `word.substring(1, word.length() - 1)` throw `StringIndexOutOfBoundsException` when the scan reaches it, that is, when every earlier field is valid. For example, `;"1."` throws, because its empty first field comes before the invalid one. The exception escapes `readFile` and ends the run with nothing written (`Ingested.Aborted`, `Run.Halted`). An empty line is one such case: `"".split(";")` is `[""]`.
- `split(";")` drops trailing empty strings. A line `;` is therefore an accepted row with no fields. Joined back with `;`, that row is the empty line, which throws.
- Stored tokens are the raw fields, wrappers included. Two fields with the same digits but different wrappers are different words.
- `mergeGroups` does not follow roots through the parent map. It also does not merge consecutive pairs, and it does not skip pairs whose roots coincide (see Findings). The model's consolidation is the intended union-find. The code as written is modelled separately.

## Model

| member | source | states |
|---|---|---|
| Fields.IsWordValid | src/main/java/com/balak1ng/LinesToGroupsSplitter.java:70-77 | true exactly when every character is between '0' and '9'; the empty string is valid |
| Fields.IsRowValid | src/main/java/com/balak1ng/LinesToGroupsSplitter.java:82-91 | Accept exactly when every field has length at least 2 and an all-digit payload; Crash exactly when the left-to-right scan meets a field shorter than 2 before any invalid one (the `substring` exception); Reject otherwise |
| Fields.SplitThenJoin | src/main/java/com/balak1ng/LinesToGroupsSplitter.java:83 | joining the pieces of a `;`-split with `;` gives back the line |
| Fields.JoinThenSplit | src/main/java/com/balak1ng/LinesToGroupsSplitter.java:83 | splitting the `;`-join of separator-free pieces gives back the same pieces |
| Fields.RenderedRowReparses | src/main/java/com/balak1ng/LinesToGroupsSplitter.java:83-91 | a non-empty accepted row whose fields contain no `;`, joined back with `;` into a line, splits into exactly that row, and the line is accepted again |
| Fields.JoinedRowReparsesIffNonEmpty | src/main/java/com/balak1ng/LinesToGroupsSplitter.java:83-91 | an accepted, separator-free row joined back with `;` splits into that same row exactly when it is non-empty; the empty row (from the line `;`) joins to the empty line, on which `isRowValid` throws |
| Fields.EmptyLineCrashes | src/main/java/com/balak1ng/LinesToGroupsSplitter.java:83-85 | the empty line splits into one empty field, on which `isRowValid` throws |
| Fields.SeparatorOnlyLineIsEmptyRow | src/main/java/com/balak1ng/LinesToGroupsSplitter.java:83 | the line `;` splits into no fields and is accepted as an empty row |
| Fields.FirstInvalidFieldDecides | src/main/java/com/balak1ng/LinesToGroupsSplitter.java:84-88 | when every field before field j is valid and field j is not, the line is not accepted, and it throws exactly when field j is shorter than two code units; later fields do not matter |
| Fields.InvalidBeforeEmptyRejects | src/main/java/com/balak1ng/LinesToGroupsSplitter.java:83-88 | the line `"1.";;"2"` splits into `"1."`, an empty field and `"2"`, and is rejected without a throw, because the scan stops at the first field |
| Fields.EmptyBeforeInvalidCrashes | src/main/java/com/balak1ng/LinesToGroupsSplitter.java:83-88 | the line `;"1."` splits into an empty field and `"1."`, and throws, because the empty field comes first |
| Fields.Utf16Length | src/main/java/com/balak1ng/LinesToGroupsSplitter.java:85 | the code-unit length that `length()` reports is the number of characters plus one for each character outside the Basic Multilingual Plane |
| Fields.SupplementaryCharIsAField | src/main/java/com/balak1ng/LinesToGroupsSplitter.java:83-87 | the line holding only U+1F600 is two code units long, so `substring(1, 1)` is empty: the line is accepted as one field with no word in it |
| Fields.SurrogateInPayloadRejects | src/main/java/com/balak1ng/LinesToGroupsSplitter.java:83-89 | in the field U+1F600 followed by `1"`, the payload starts with the low surrogate, so the line is rejected and nothing throws |
| Ingestion.CountWord | src/main/java/com/balak1ng/LinesToGroupsSplitter.java:117-122 | the counter of the field grows by one exactly when its payload is non-empty, all other counters stay; the duplicated set stays the set of fields counted at least twice |
| Ingestion.CountWords | src/main/java/com/balak1ng/LinesToGroupsSplitter.java:114-124 | every counter grows by the number of times its field occurs in the row (if the payload is non-empty); the duplicated set stays the set of fields counted at least twice |
| Ingestion.StoreRow | src/main/java/com/balak1ng/LinesToGroupsSplitter.java:110-124 | the row is appended, `maxColumns` stays the width of the widest stored row, and the counters stay the occurrence counts of the stored rows |
| Ingestion.TakeLine | src/main/java/com/balak1ng/LinesToGroupsSplitter.java:105-124 | reports a throw exactly when `isRowValid` throws on the line; otherwise the state after the line is the state `readFile` defines for one more line |
| Ingestion.Ingest | src/main/java/com/balak1ng/LinesToGroupsSplitter.java:99-127 | aborts exactly when some line makes `isRowValid` throw; otherwise the rows are the accepted lines' fields in input order (repeats kept), `maxColumns` is the widest row (0 if none), and the duplicated set is exactly the fields with a non-empty payload that occur at least twice |
| Ingestion.AllLinesAccepted | src/main/java/com/balak1ng/LinesToGroupsSplitter.java:105-110 | when every line splits into a row that `isRowValid` accepts, the stored rows are exactly those rows in input order and no line throws |
| Ingestion.AcceptedRowsAreValid | src/main/java/com/balak1ng/LinesToGroupsSplitter.java:106-110 | every stored row passes `isRowValid` |
| Conditions.VisitRow | src/main/java/com/balak1ng/LinesToGroupsSplitter.java:138-144 | after one row, a duplicated word's seen columns gain the row's own columns, and (w, i) becomes a condition exactly when the row holds w at column i and column i had been seen for w before |
| Conditions.FormConditions | src/main/java/com/balak1ng/LinesToGroupsSplitter.java:134-148 | column i is listed for word w exactly when w is duplicated and stands in column i of two different rows; no word is listed with an empty column set |
| Conditions.ConditionIffRepeatedInColumn | src/main/java/com/balak1ng/LinesToGroupsSplitter.java:117-121 | on an ingested corpus, (w, i) is a condition exactly when w has a non-empty payload and stands in column i of two different rows |
| Conditions.ConditionsOfIngestedCorpus | src/main/java/com/balak1ng/LinesToGroupsSplitter.java:117-121 | on an ingested corpus every condition word has a non-empty payload and every condition column is below `maxColumns` |
| GroupIds.GroupIdDecode | src/main/java/com/balak1ng/LinesToGroupsSplitter.java:174 | for a column at most `maxColumns`, dividing the id by `maxColumns + 1` gives back the condition index and the remainder the column |
| GroupIds.GroupIdInjective | src/main/java/com/balak1ng/LinesToGroupsSplitter.java:174 | two (condition index, column) pairs with columns at most `maxColumns` that give the same id are the same pair |
| GroupIds.AssignIndices | src/main/java/com/balak1ng/LinesToGroupsSplitter.java:160-166 | the condition words, and only they, get pairwise distinct indices below the number of condition words |
| GroupIds.RowIds | src/main/java/com/balak1ng/LinesToGroupsSplitter.java:171-177 | the row's id list has one id per qualifying column, in column order, each the id of that cell's word and column; it is empty exactly when no column qualifies |
| GroupIds.FindGroupsForEachRow | src/main/java/com/balak1ng/LinesToGroupsSplitter.java:168-180 | a row is a key exactly when one of its cells matches a condition, and its value is that row's id list |
| GroupIds.RowToIdsUnique | src/main/java/com/balak1ng/LinesToGroupsSplitter.java:168-180 | the conditions and their numbering determine the row-to-ids map: two maps that both meet its definition are equal |
| GroupIds.AddRow | src/main/java/com/balak1ng/LinesToGroupsSplitter.java:224-226 | the row joins exactly the groups of its ids; every other membership stays, and no group is empty |
| GroupIds.CreateGroups | src/main/java/com/balak1ng/LinesToGroupsSplitter.java:220-230 | row x is in group g exactly when g is in x's id list, and no group is empty |
| GroupIds.ShareIdIffShareCondition | src/main/java/com/balak1ng/LinesToGroupsSplitter.java:173-175 | two rows share a group id exactly when they hold the same condition word in the same condition column |
| GroupIds.InitialGroupsHaveTwoRows | src/main/java/com/balak1ng/LinesToGroupsSplitter.java:220-230 | every group built by `createGroups` holds at least two rows |
| Consolidation.ConsecutivePairs | src/main/java/com/balak1ng/LinesToGroupsSplitter.java:193-195 | the pairs of a row use only the row's ids and include every pair of neighbouring ids |
| Consolidation.CollectPairs | src/main/java/com/balak1ng/LinesToGroupsSplitter.java:190-197 | every pair is two ids of one row, and every two neighbouring ids of every row are a pair |
| Consolidation.UnionKeepsInv | src/main/java/com/balak1ng/LinesToGroupsSplitter.java:201-213 | one merge step keeps the union-find invariant: representatives are live groups, each group holds exactly the rows of the ids it represents, the pairs seen so far share a representative, and group members are linked |
| Consolidation.FinalPartition | src/main/java/com/balak1ng/LinesToGroupsSplitter.java:199-213 | after all pairs the groups are disjoint, cover exactly the rows of the row-to-ids map, and each is the set of rows linked to any of its members |
| Consolidation.Consolidate | src/main/java/com/balak1ng/LinesToGroupsSplitter.java:199-213 | the result is a partition of the listed rows into link classes, and every surviving group id names an initial group it contains |
| Consolidation.MergeGroups | src/main/java/com/balak1ng/LinesToGroupsSplitter.java:189-214 | the groups `mergeGroups` is meant to leave are the link classes of the listed rows: disjoint, covering, transitively closed |
| AsWritten.CollectPairsAsWritten | src/main/java/com/balak1ng/LinesToGroupsSplitter.java:190-197 | every pair the code enqueues is two ids of one row |
| AsWritten.MergeAsWritten | src/main/java/com/balak1ng/LinesToGroupsSplitter.java:199-213 | when the code does not throw, its groups are initial group ids and hold only rows that were in some initial group |
| AsWritten.RowPairsSkipFirst | src/main/java/com/balak1ng/LinesToGroupsSplitter.java:193-195 | for a row with three or more ids, the first id appears in none of the enqueued pairs although the intended pairs join it to the second |
| AsWritten.LostRowsScenario | src/main/java/com/balak1ng/LinesToGroupsSplitter.java:189-214 | for the four-row input of Findings row 1, the code keeps one group {0, 1} and reports rows 2 and 3 in no group |
| AsWritten.LostRowsIntended | src/main/java/com/balak1ng/LinesToGroupsSplitter.java:183-187 | on the same input, any partition into link classes has the group {0, 1, 2, 3} |
| AsWritten.ChainScenarioCrashes | src/main/java/com/balak1ng/LinesToGroupsSplitter.java:201-208 | for the five-row chain of Findings row 2, the third pair needs two parent hops, and the code throws `NullPointerException` |
| AsWritten.ChainIntended | src/main/java/com/balak1ng/LinesToGroupsSplitter.java:183-187 | on the same input, any partition into link classes has the group {0, 1, 2, 3, 4} |
| AsWritten.TwinScenario | src/main/java/com/balak1ng/LinesToGroupsSplitter.java:210-212 | for two identical rows the second pair merges a group into itself and removes it, so no group is left |
| AsWritten.TwinIntended | src/main/java/com/balak1ng/LinesToGroupsSplitter.java:183-187 | on the same input, any partition into link classes has the group {0, 1} |
| AsWritten.ThreeRowScenarioCrashes | src/main/java/com/balak1ng/LinesToGroupsSplitter.java:189-214 | for the rows "1";"2";"3", "1";"5";"3", "9";"2";"3", visited in row order, the code throws for every choice of distinct condition ids |
| Scenarios.LostRowsStages | src/main/java/com/balak1ng/LinesToGroupsSplitter.java:99-180 | reading the four lines of Findings row 1 gives the conditions ("1",0), ("2",1), ("3",2); numbering them 0, 1, 2 gives the ids [0,5,10], [0], [5], [10], the map `LostRowsScenario` starts from |
| Scenarios.ChainStages | src/main/java/com/balak1ng/LinesToGroupsSplitter.java:99-180 | reading the five lines of Findings row 2 gives the conditions ("1",0), ("2",1), ("6",1), ("5",2); numbering them 0, 1, 3, 2 gives the ids [0,5], [5,10], [0,13], [10], [13], the map `ChainScenarioCrashes` starts from |
| Scenarios.TwinStages | src/main/java/com/balak1ng/LinesToGroupsSplitter.java:99-180 | reading "1";"2" twice gives the conditions ("1",0), ("2",1); numbering them 0, 1 gives both rows the ids [0,4], the map `TwinScenario` starts from |
| Scenarios.ThreeRowStages | src/main/java/com/balak1ng/LinesToGroupsSplitter.java:99-180 | reading "1";"2";"3", "1";"5";"3", "9";"2";"3" gives the conditions ("1",0), ("2",1), ("3",2); under any numbering the rows get ids [a,b,c], [a,c], [b,c] with a, b, c distinct, and the code's consolidation of them throws |
| Reporting.SortBy | src/main/java/com/balak1ng/LinesToGroupsSplitter.java:242-244 | the result is a permutation of the input with sizes non-increasing |
| Reporting.InsertKeepsOrder | src/main/java/com/balak1ng/LinesToGroupsSplitter.java:243 | inserting after all elements at least as large keeps the order non-increasing |
| Reporting.SortBySize | src/main/java/com/balak1ng/LinesToGroupsSplitter.java:242-244 | the groups are a permutation of the merged groups, largest first |
| Reporting.UnlistedSpec | src/main/java/com/balak1ng/LinesToGroupsSplitter.java:259-260 | the single-row candidates are exactly the stored rows absent from the row-to-ids map, each once, in increasing order |
| Reporting.NumberGroups | src/main/java/com/balak1ng/LinesToGroupsSplitter.java:249-257 | the sorted groups become blocks numbered 1, 2, … holding the groups in sorted order |
| Reporting.AppendSingles | src/main/java/com/balak1ng/LinesToGroupsSplitter.java:259-266 | the earlier blocks stay; one block per unlisted row follows, in row order, holding just that row, and numbering continues without gaps |
| Reporting.BuildReport | src/main/java/com/balak1ng/LinesToGroupsSplitter.java:239-268 | the header counts the merged groups; blocks are numbered from 1; the first blocks are the merged groups largest first; then one block per unlisted row in row order; the final total counts every block |
| Reporting.ReportListsEveryRow | src/main/java/com/balak1ng/LinesToGroupsSplitter.java:249-266 | given disjoint groups over the listed rows, every stored row appears in some block |
| Reporting.ReportListsRowOnce | src/main/java/com/balak1ng/LinesToGroupsSplitter.java:249-266 | given disjoint groups, no row appears in two blocks |
| Reporting.ReportListsOnlyStoredRows | src/main/java/com/balak1ng/LinesToGroupsSplitter.java:252-262 | every row in a block is a stored row |
| Pipeline.EnumerateKeys | src/main/java/com/balak1ng/LinesToGroupsSplitter.java:249 | some iteration order of the keys: each key exactly once |
| Pipeline.Split | src/main/java/com/balak1ng/LinesToGroupsSplitter.java:29-56 | halts exactly when some line makes `isRowValid` throw; otherwise every stage's result meets that stage's reference definition |
| Pipeline.LinkedIffConditionLinked | src/main/java/com/balak1ng/LinesToGroupsSplitter.java:183-187 | rows are linked by shared group ids exactly when a chain of rows joins them, each step sharing a condition word in a condition column |
| Pipeline.GroupsAreConditionClasses | src/main/java/com/balak1ng/LinesToGroupsSplitter.java:183-187 | a final group holding x holds y exactly when x and y are joined by a chain of shared conditions |
| Pipeline.ListedKeys | src/main/java/com/balak1ng/LinesToGroupsSplitter.java:170-177 | a row is in the row-to-ids map exactly when it holds a condition word in a condition column |
| Pipeline.IngestedUnique | src/main/java/com/balak1ng/LinesToGroupsSplitter.java:99-127 | the input lines determine the stored corpus |
| Pipeline.ConditionMapUnique | src/main/java/com/balak1ng/LinesToGroupsSplitter.java:134-148 | the corpus determines the condition map, whatever the row order inside a set |
| Pipeline.SplitIsDeterministic | src/main/java/com/balak1ng/LinesToGroupsSplitter.java:29-56 | two runs on the same lines agree on the corpus, the conditions, the listed rows and the set of final groups, whatever the hash orders and condition numbering |
| Pipeline.GroupsNonEmpty | src/main/java/com/balak1ng/LinesToGroupsSplitter.java:247 | every merged group has at least two rows, as the report header claims |
| Pipeline.EveryRowReportedOnce | src/main/java/com/balak1ng/LinesToGroupsSplitter.java:249-266 | every stored row is in exactly one block of the report, and blocks hold only stored rows |
| Pipeline.SplitExample | src/main/java/com/balak1ng/LinesToGroupsSplitter.java:29-56 | under the intended consolidation, splitting the lines "1";"2";"3", "1";"5";"3", "9";"2";"3" completes with a single group of all three rows, reported as one block numbered 1 under a header count of 1 and a closing total of 1 (the code as written throws on these lines, see `AsWritten.ThreeRowScenarioCrashes`) |

## Left out

- File I/O is not modelled, and neither is the line reader. The input is the sequence of lines `readLine` would return (lines 37, 102-105), as Java strings. How `FileReader` decodes the file's bytes into UTF-16 depends on the platform's default charset and is not modelled. `IOException` from reading (line 38) and writing (lines 53-54) is not modelled.
- The logger (lines 9, 39, 54) is left out.
- `formatSize` (lines 61-65) is left out: it only formats diagnostics and uses floating point.
- Timing and memory diagnostics (lines 30, 270-275) are left out: they need a clock and the runtime.
- The report is modelled as numbered blocks of row sets plus the two counts. The text rendering of rows and headers (lines 247-268) is not modelled.
- Row order inside a block is not modelled: it is HashSet iteration order (line 252).
- Group ids are unbounded integers. Java `int` overflow of `index * (maxColumns + 1) + i` (line 174) is not modelled. It needs more than 2^31 / (maxColumns + 1) condition words.
- Hash iteration orders are arbitrary choices (`:|`) or explicit parameters. The as-written scenarios visit rows in ascending order. Except for the three-row scenario, which holds for every numbering, each scenario fixes one condition numbering, one of those `uniqueStringConditionIndex` can produce (lines 160-166). Java's `HashMap` uses that order for small non-negative `Integer` keys, but this is an assumption about the runtime.
- Reporting.SortBy: the contract states a size-ordered permutation but not stability. The order of equal-sized groups follows hash order, so stability promises nothing observable.
- `mergeGroups` updates the group map in place. The model returns the new map. The row-to-ids map is a value and cannot change.
- The intended consolidation is what the rest of the model uses. The code as written lives only in `AsWritten`, with the scenarios below.

## Findings

| source | as written | input that shows it | evidently intended | confidence | as-written member | corrected member |
|---|---|---|---|---|---|---|
| src/main/java/com/balak1ng/LinesToGroupsSplitter.java:193-195 | each row enqueues (last id, second-to-last id) once per later id. A row's first id is never paired when it has three or more ids, and repeats of one pair follow | rows "1";"2";"3", "1";"4";"5", "6";"2";"7", "8";"9";"3" give ids [0,5,10], [0], [5], [10]. The only pairs are (10,5) twice; group 0 is never joined, and group 10 is merged into itself and dropped, so rows 2 and 3 are reported nowhere. The three-row input of `ThreeRowScenarioCrashes` crashes outright | enqueue each consecutive pair (ids[i-1], ids[i]), as the comment on lines 183-187 and the partition of rows requires | high, not executed | AsWritten.LostRowsScenario | Consolidation.CollectPairs |
| src/main/java/com/balak1ng/LinesToGroupsSplitter.java:203-208 | a pair's parent is found by a single `parentGroup` lookup. For an id merged away twice, that parent is no longer a group, `groups.get` returns `null`, and `addAll(null)` throws `NullPointerException` | the chain "1";"2";"3", "4";"2";"5", "1";"6";"7", "8";"9";"5", "0";"6";"4" gives the pairs (5,0), (10,5), (13,0). After the first two merges, id 0's parent 5 is itself gone, so `groups.get(5)` is `null` and `addAll` throws | follow parents to the root | high, not executed | AsWritten.ChainScenarioCrashes | Consolidation.Consolidate |
| src/main/java/com/balak1ng/LinesToGroupsSplitter.java:210-212 | when both parents are the same group, the group is added to itself and then removed with all its rows | two identical lines "1";"2" give ids [0,4] on both rows. The pair (4,0) arrives twice, and the second time both parents are 4, so group 4 vanishes and neither row is reported | skip a pair whose two roots coincide | high, not executed | AsWritten.TwinScenario | Consolidation.Consolidate |
