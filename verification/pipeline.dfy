/**
 * The whole of `main` between reading the input and writing the output:
 * ingestion, conditions, group ids, the reverse map, consolidation and the
 * report, with the hash-map iteration orders left open.
 */
module Pipeline {
  import opened Collections
  import opened Fields
  import opened Ingestion
  import opened Conditions
  import opened Linking
  import opened GroupIds
  import opened Consolidation
  import opened Reporting

  /** Every intermediate value of one completed run. */
  datatype Stages = Stages(
    corpus: Corpus,
    conds: map<Field, set<nat>>,
    index: map<Field, nat>,
    rowIds: RowToIds,
    initial: map<nat, set<nat>>,
    groups: map<nat, set<nat>>,
    order: seq<nat>,
    report: Report)

  /** A run either dies in `readFile` or completes. */
  datatype Run = Halted | Completed(stages: Stages)

  /** Every stage of `s` is what its method promises for the input `lines`. */
  ghost predicate IsSplitOf(lines: seq<JavaString>, s: Stages)
  {
    && IsIngested(lines, s.corpus)
    && IsConditionMap(s.corpus, s.conds)
    && IsIndexing(s.conds, s.index)
    && IsRowToIds(s.corpus, s.conds, s.index, s.rowIds)
    && IsReverseMap(s.rowIds, s.initial)
    && IsPartitionOf(s.groups, s.rowIds)
    && GroupsAreLinkClasses(s.groups, s.rowIds)
    && (forall r :: r in s.groups ==> r in s.initial && s.initial[r] <= s.groups[r])
    && IsEnumeration(s.order, s.groups.Keys)
    && IsReportOf(s.groups, s.order, s.rowIds.Keys, |s.corpus.rows|, s.report)
  }

  /** Some iteration order of a key set. */
  method EnumerateKeys(keys: set<nat>) returns (order: seq<nat>)
    ensures IsEnumeration(order, keys)
  {
    order := [];
    var rest := keys;
    while rest != {}
      invariant rest <= keys
      invariant forall k :: 0 <= k < |order| ==> order[k] in keys && order[k] !in rest
      invariant forall x :: x in keys ==> x in rest || x in order
      invariant forall a, b :: 0 <= a < b < |order| ==> order[a] != order[b]
      decreases rest
    {
      var x :| x in rest;
      order := order + [x];
      rest := rest - {x};
    }
  }

  /** `main`: the stages in order; the run halts exactly when some line makes `isRowValid` throw. */
  method Split(lines: seq<JavaString>) returns (r: Run)
    ensures r.Halted? <==> SomeLineCrashes(lines)
    ensures r.Completed? ==> IsSplitOf(lines, r.stages)
  {
    var ingested := Ingest(lines);
    if ingested.Aborted? {
      return Halted;
    }
    var c := ingested.corpus;
    var conds := FormConditions(c);
    var index := AssignIndices(conds);
    var m := FindGroupsForEachRow(c, conds, index);
    var initial := CreateGroups(m);
    var groups := MergeGroups(m, initial);
    var order := EnumerateKeys(groups.Keys);
    var report := BuildReport(groups, order, m.Keys, |c.rows|);
    r := Completed(Stages(c, conds, index, m, initial, groups, order, report));
  }

  // ---------------------------------------------------------------------------
  // The grouping in terms of the input alone
  // ---------------------------------------------------------------------------

  /** Row `x` holds a condition word in one of that word's condition columns. */
  ghost predicate Listed(c: Corpus, conds: map<Field, set<nat>>, x: nat)
  {
    x < |c.rows| && exists i: nat :: Qualifies(conds, c.rows[x], i)
  }

  /** A non-empty sequence of listed rows in which neighbours hold a common condition. */
  ghost predicate IsConditionChain(c: Corpus, conds: map<Field, set<nat>>, ch: seq<nat>)
  {
    && |ch| >= 1
    && (forall k :: 0 <= k < |ch| ==> Listed(c, conds, ch[k]))
    && (forall k :: 0 <= k < |ch| - 1 ==> ShareCondition(c, conds, ch[k], ch[k + 1]))
  }

  ghost predicate ConditionLinked(c: Corpus, conds: map<Field, set<nat>>, x: nat, y: nat)
  {
    exists ch :: IsConditionChain(c, conds, ch) && ch[0] == x && ch[|ch| - 1] == y
  }

  /** Linked through shared ids is linked through shared conditions, whatever the numbering of the conditions. */
  lemma LinkedIffConditionLinked(c: Corpus, conds: map<Field, set<nat>>, index: map<Field, nat>, m: RowToIds, x: nat, y: nat)
    requires IsIndexing(conds, index)
    requires IsRowToIds(c, conds, index, m)
    requires forall r :: 0 <= r < |c.rows| ==> |c.rows[r]| <= c.maxColumns
    ensures Linked(m, x, y) <==> ConditionLinked(c, conds, x, y)
  {
    forall a, b ensures ShareId(m, a, b) <==> ShareCondition(c, conds, a, b) {
      ShareIdIffShareCondition(c, conds, index, m, a, b);
    }
    if Linked(m, x, y) {
      var ch :| IsChain(m, ch) && ch[0] == x && ch[|ch| - 1] == y;
      assert IsConditionChain(c, conds, ch);
    }
    if ConditionLinked(c, conds, x, y) {
      var ch :| IsConditionChain(c, conds, ch) && ch[0] == x && ch[|ch| - 1] == y;
      assert IsChain(m, ch);
    }
  }

  /**
   * The result of a completed run: a row lies in the group of another exactly
   * when a chain of rows, neighbours sharing a condition word in a condition
   * column, joins them.
   */
  lemma GroupsAreConditionClasses(lines: seq<JavaString>, s: Stages, r: nat, x: nat, y: nat)
    requires IsSplitOf(lines, s)
    requires r in s.groups && x in s.groups[r]
    ensures y in s.groups[r] <==> ConditionLinked(s.corpus, s.conds, x, y)
  {
    LinkedIffConditionLinked(s.corpus, s.conds, s.index, s.rowIds, x, y);
  }

  /** A listed row is a row with a condition cell. */
  lemma ListedRows(lines: seq<JavaString>, s: Stages, x: nat)
    requires IsSplitOf(lines, s)
    ensures x in s.rowIds <==> Listed(s.corpus, s.conds, x)
  {
  }

  /** The rows listed by a run are the rows with a condition cell. */
  lemma ListedKeys(lines: seq<JavaString>, s: Stages)
    requires IsSplitOf(lines, s)
    ensures forall x :: x in s.rowIds <==> Listed(s.corpus, s.conds, x)
  {
    forall x ensures x in s.rowIds <==> Listed(s.corpus, s.conds, x) {
      ListedRows(lines, s, x);
    }
  }

  /** `readFile` leaves behind one corpus for a given input. */
  lemma IngestedUnique(lines: seq<JavaString>, c1: Corpus, c2: Corpus)
    requires IsIngested(lines, c1) && IsIngested(lines, c2)
    ensures c1 == c2
  {
    var rows := c1.rows;
    if rows != [] {
      var r1 :| 0 <= r1 < |rows| && |rows[r1]| == c1.maxColumns;
      var r2 :| 0 <= r2 < |rows| && |rows[r2]| == c2.maxColumns;
    }
    assert c1.duplicated == c2.duplicated;
  }

  /** `formConditions` leaves behind one condition map for a given corpus. */
  lemma ConditionMapUnique(c: Corpus, conds1: map<Field, set<nat>>, conds2: map<Field, set<nat>>)
    requires IsConditionMap(c, conds1) && IsConditionMap(c, conds2)
    ensures conds1 == conds2
  {
    forall w: Field, i: nat ensures i in Lookup(conds1, w) <==> i in Lookup(conds2, w) {
    }
    forall w | w in conds1 ensures w in conds2 && conds1[w] == conds2[w] {
      var i :| i in conds1[w];
      assert i in Lookup(conds1, w);
      assert Lookup(conds1, w) == Lookup(conds2, w);
    }
    forall w | w in conds2 ensures w in conds1 {
      var i :| i in conds2[w];
      assert i in Lookup(conds2, w);
    }
  }

  /** Each group is the set of rows condition-linked to any of its members. */
  ghost predicate AreConditionClasses(c: Corpus, conds: map<Field, set<nat>>, groups: map<nat, set<nat>>)
  {
    forall r, x, y :: r in groups && x in groups[r] ==> (y in groups[r] <==> ConditionLinked(c, conds, x, y))
  }

  /** The groups are non-empty and together hold exactly the listed rows. */
  ghost predicate CoverListed(c: Corpus, conds: map<Field, set<nat>>, groups: map<nat, set<nat>>)
  {
    && (forall r :: r in groups ==> groups[r] != {})
    && (forall x :: Listed(c, conds, x) <==> exists r :: r in groups && x in groups[r])
  }

  /** The groups of a completed run, described through the input alone. */
  lemma RunGroups(lines: seq<JavaString>, s: Stages)
    requires IsSplitOf(lines, s)
    ensures AreConditionClasses(s.corpus, s.conds, s.groups)
    ensures CoverListed(s.corpus, s.conds, s.groups)
  {
    forall r, x, y | r in s.groups && x in s.groups[r]
      ensures y in s.groups[r] <==> ConditionLinked(s.corpus, s.conds, x, y)
    {
      GroupsAreConditionClasses(lines, s, r, x, y);
    }
    forall r | r in s.groups ensures s.groups[r] != {} {
      GroupsNonEmpty(lines, s, r);
    }
    forall x ensures Listed(s.corpus, s.conds, x) <==> exists r :: r in s.groups && x in s.groups[r] {
      ListedRows(lines, s, x);
    }
  }

  /** Two groupings into the same condition classes have the same groups. */
  lemma SameClasses(c: Corpus, conds: map<Field, set<nat>>, g1: map<nat, set<nat>>, g2: map<nat, set<nat>>, v: set<nat>)
    requires AreConditionClasses(c, conds, g1) && CoverListed(c, conds, g1)
    requires AreConditionClasses(c, conds, g2) && CoverListed(c, conds, g2)
    requires v in g1.Values
    ensures v in g2.Values
  {
    var r1 :| r1 in g1 && g1[r1] == v;
    var x :| x in v;
    assert Listed(c, conds, x);
    var r2 :| r2 in g2 && x in g2[r2];
    forall y ensures y in g2[r2] <==> y in v {
      assert y in g2[r2] <==> ConditionLinked(c, conds, x, y);
      assert y in g1[r1] <==> ConditionLinked(c, conds, x, y);
    }
    assert g2[r2] == v;
  }

  /**
   * The merged groups do not depend on the iteration orders of the hash
   * maps: two completed runs on the same input produce the same groups, only
   * under different keys.
   */
  lemma SplitIsDeterministic(lines: seq<JavaString>, s1: Stages, s2: Stages)
    requires IsSplitOf(lines, s1) && IsSplitOf(lines, s2)
    ensures s1.corpus == s2.corpus && s1.conds == s2.conds
    ensures s1.rowIds.Keys == s2.rowIds.Keys
    ensures s1.groups.Values == s2.groups.Values
  {
    IngestedUnique(lines, s1.corpus, s2.corpus);
    ConditionMapUnique(s1.corpus, s1.conds, s2.conds);
    ListedKeys(lines, s1);
    ListedKeys(lines, s2);
    RunGroups(lines, s1);
    RunGroups(lines, s2);
    SameGroupings(s1.corpus, s1.conds, s1.groups, s2.groups);
  }

  /** Two groupings into the same condition classes have the same groups. */
  lemma SameGroupings(c: Corpus, conds: map<Field, set<nat>>, g1: map<nat, set<nat>>, g2: map<nat, set<nat>>)
    requires AreConditionClasses(c, conds, g1) && CoverListed(c, conds, g1)
    requires AreConditionClasses(c, conds, g2) && CoverListed(c, conds, g2)
    ensures g1.Values == g2.Values
  {
    forall v | v in g1.Values ensures v in g2.Values {
      SameClasses(c, conds, g1, g2, v);
    }
    forall v | v in g2.Values ensures v in g1.Values {
      SameClasses(c, conds, g2, g1, v);
    }
  }

  /** Merged groups hold at least the two rows of their initial group. */
  lemma GroupsNonEmpty(lines: seq<JavaString>, s: Stages, r: nat)
    requires IsSplitOf(lines, s)
    requires r in s.groups
    ensures |s.groups[r]| >= 2
  {
    InitialGroupsHaveTwoRows(s.corpus, s.conds, s.index, s.rowIds, s.initial);
    assert s.initial[r] <= s.groups[r];
    SubsetSize(s.initial[r], s.groups[r]);
  }

  lemma SubsetSize(a: set<nat>, b: set<nat>)
    requires a <= b
    ensures |a| <= |b|
  {
    assert b == a + (b - a);
  }

  /** Every stored row appears in exactly one block of the report, and every block holds stored rows only. */
  lemma EveryRowReportedOnce(lines: seq<JavaString>, s: Stages, j: nat)
    requires IsSplitOf(lines, s)
    ensures j < |s.corpus.rows| ==> exists k :: 0 <= k < |s.report.entries| && j in s.report.entries[k].members
    ensures forall k1, k2 :: 0 <= k1 < k2 < |s.report.entries| ==>
      !(j in s.report.entries[k1].members && j in s.report.entries[k2].members)
    ensures forall k :: 0 <= k < |s.report.entries| && j in s.report.entries[k].members ==> j < |s.corpus.rows|
  {
    var n := |s.corpus.rows|;
    assert PartitionBelow(s.groups, s.rowIds.Keys, n);
    if j < n {
      ReportListsEveryRow(s.groups, s.order, s.rowIds.Keys, n, s.report, j);
    }
    forall k1, k2 | 0 <= k1 < k2 < |s.report.entries|
      ensures !(j in s.report.entries[k1].members && j in s.report.entries[k2].members)
    {
      ReportListsRowOnce(s.groups, s.order, s.rowIds.Keys, n, s.report, j, k1, k2);
    }
    forall k | 0 <= k < |s.report.entries| && j in s.report.entries[k].members
      ensures j < n
    {
      ReportListsOnlyStoredRows(s.groups, s.order, s.rowIds.Keys, n, s.report, j, k);
    }
  }

  // ---------------------------------------------------------------------------
  // Example: the lines "1";"2";"3"  "1";"5";"3"  "9";"2";"3"
  // ---------------------------------------------------------------------------

  /** A line of three `;`-separated valid fields splits back into those fields and is accepted. */
  lemma ThreeFieldLine(x: Field, y: Field, z: Field)
    requires FieldValid(x) && FieldValid(y) && FieldValid(z)
    requires Semicolon !in x && Semicolon !in y && Semicolon !in z
    ensures JavaSplit(x + [Semicolon] + y + [Semicolon] + z) == [x, y, z]
    ensures RowAccepted([x, y, z])
  {
    var row := [x, y, z];
    assert Join(row[2..]) == z;
    assert Join(row[1..]) == y + [Semicolon] + z;
    assert Join(row) == x + [Semicolon] + y + [Semicolon] + z;
    RenderedRowReparses(row);
  }

  /** The field `"d"`: one decimal digit between quotes, as code units. */
  function QuotedDigit(d: nat): Field
    requires d <= 9
  {
    [Quote, DigitZero + d as CodeUnit, Quote]
  }

  /** A quoted digit is a valid field without a separator. */
  lemma QuotedDigitValid(d: nat)
    requires d <= 9
    ensures FieldValid(QuotedDigit(d)) && Semicolon !in QuotedDigit(d)
  {
    assert Payload(QuotedDigit(d)) == [DigitZero + d as CodeUnit];
  }

  /** The characters `"a";"b";"c"` are, as a Java `String`, three quoted digits joined by `;`. */
  lemma DigitLine(a: char, b: char, c: char)
    requires '0' <= a <= '9' && '0' <= b <= '9' && '0' <= c <= '9'
    ensures Utf16(['"', a, '"', ';', '"', b, '"', ';', '"', c, '"']) ==
      QuotedDigit(a as int - '0' as int) + [Semicolon] + QuotedDigit(b as int - '0' as int) + [Semicolon] + QuotedDigit(c as int - '0' as int)
  {
    var s := ['"', a, '"', ';', '"', b, '"', ';', '"', c, '"'];
    var t := QuotedDigit(a as int - '0' as int) + [Semicolon] + QuotedDigit(b as int - '0' as int) + [Semicolon] + QuotedDigit(c as int - '0' as int);
    Utf16OfBmp(s);
    assert |t| == |s|;
    forall k | 0 <= k < |s| ensures Utf16(s)[k] == t[k] {
      assert Utf16(s)[k] as int == s[k] as int;
    }
  }

  /** The character of the decimal digit `d`. */
  function DigitChar(d: nat): char
    requires d <= 9
  {
    ('0' as int + d) as char
  }

  /** The line `"a";"b";"c"` as a Java `String`. */
  function DigitText(a: nat, b: nat, c: nat): JavaString
    requires a <= 9 && b <= 9 && c <= 9
  {
    Utf16(['"', DigitChar(a), '"', ';', '"', DigitChar(b), '"', ';', '"', DigitChar(c), '"'])
  }

  /** The line `"a";"b";"c"` is accepted and stored as its three quoted digits. */
  lemma DigitLineSplits(a: nat, b: nat, c: nat)
    requires a <= 9 && b <= 9 && c <= 9
    ensures JavaSplit(DigitText(a, b, c)) == [QuotedDigit(a), QuotedDigit(b), QuotedDigit(c)]
    ensures RowAccepted([QuotedDigit(a), QuotedDigit(b), QuotedDigit(c)])
  {
    QuotedDigitValid(a);
    QuotedDigitValid(b);
    QuotedDigitValid(c);
    DigitLine(DigitChar(a), DigitChar(b), DigitChar(c));
    ThreeFieldLine(QuotedDigit(a), QuotedDigit(b), QuotedDigit(c));
  }

  /** A table of lines, each given by its three decimal digits. */
  predicate IsDigitTable(d: seq<(nat, nat, nat)>)
  {
    forall k :: 0 <= k < |d| ==> d[k].0 <= 9 && d[k].1 <= 9 && d[k].2 <= 9
  }

  /** Digit `i` of a line. */
  function Digit(t: (nat, nat, nat), i: nat): nat
    requires i < 3
  {
    if i == 0 then t.0 else if i == 1 then t.1 else t.2
  }

  function DigitLines(d: seq<(nat, nat, nat)>): seq<JavaString>
    requires IsDigitTable(d)
  {
    seq(|d|, k requires 0 <= k < |d| => DigitText(d[k].0, d[k].1, d[k].2))
  }

  function DigitRows(d: seq<(nat, nat, nat)>): seq<Row>
    requires IsDigitTable(d)
  {
    seq(|d|, k requires 0 <= k < |d| => [QuotedDigit(d[k].0), QuotedDigit(d[k].1), QuotedDigit(d[k].2)])
  }

  /** Every line of a digit table is accepted and stored as its quoted digits, and none throws. */
  lemma DigitLinesAccepted(d: seq<(nat, nat, nat)>)
    requires IsDigitTable(d)
    ensures AcceptedRows(DigitLines(d)) == DigitRows(d)
    ensures !SomeLineCrashes(DigitLines(d))
  {
    var lines, rows := DigitLines(d), DigitRows(d);
    forall k | 0 <= k < |d| ensures JavaSplit(lines[k]) == rows[k] && RowAccepted(rows[k]) {
      DigitLineSplits(d[k].0, d[k].1, d[k].2);
    }
    AllLinesAccepted(lines, rows);
  }

  /** The example input: the lines "1";"2";"3", "1";"5";"3" and "9";"2";"3". */
  function ExampleDigits(): seq<(nat, nat, nat)>
  {
    [(1, 2, 3), (1, 5, 3), (9, 2, 3)]
  }

  function ExampleLines(): seq<JavaString>
  {
    DigitLines(ExampleDigits())
  }

  function ExampleRows(): seq<Row>
  {
    DigitRows(ExampleDigits())
  }

  /** The example rows, field by field. */
  lemma ExampleRowsAre()
    ensures ExampleRows() == [[QuotedDigit(1), QuotedDigit(2), QuotedDigit(3)],
                              [QuotedDigit(1), QuotedDigit(5), QuotedDigit(3)],
                              [QuotedDigit(9), QuotedDigit(2), QuotedDigit(3)]]
  {
  }

  /** A condition-linked row is a listed row. */
  lemma ConditionLinkedListed(c: Corpus, conds: map<Field, set<nat>>, x: nat, y: nat)
    requires ConditionLinked(c, conds, x, y)
    ensures Listed(c, conds, y)
  {
    var ch :| IsConditionChain(c, conds, ch) && ch[0] == x && ch[|ch| - 1] == y;
  }

  /** "1" and "2" each occur twice among the example rows. */
  lemma ExampleRepeats(rows: seq<Row>)
    requires rows == ExampleRows()
    ensures Occurrences(rows, QuotedDigit(1)) >= 2 && Occurrences(rows, QuotedDigit(2)) >= 2
  {
    ExampleRowsAre();
    var one, two := QuotedDigit(1), QuotedDigit(2);
    assert rows[..2][..1] == rows[..1] && rows[..1][..0] == [] && rows[..3] == rows && rows[..3][..2] == rows[..2];
    assert Occurrences(rows[..1], one) == 1 && Occurrences(rows[..2], one) == 2;
    assert Occurrences(rows[..1], two) == 1 && Occurrences(rows[..2], two) == 1;
  }

  /** In the example, ("1", 0) and ("2", 1) are conditions. */
  lemma ExampleConditions(c: Corpus, conds: map<Field, set<nat>>)
    requires c.rows == ExampleRows()
    requires forall w :: w in c.duplicated <==> IsDuplicated(c.rows, w)
    requires IsConditionMap(c, conds)
    ensures 0 in Lookup(conds, QuotedDigit(1)) && 1 in Lookup(conds, QuotedDigit(2))
  {
    var rows := c.rows;
    var one, two := QuotedDigit(1), QuotedDigit(2);
    ExampleRowsAre();
    ExampleRepeats(rows);
    assert HasPayload(one) && HasPayload(two);
    assert At(rows, 0, 0, one) && At(rows, 1, 0, one);
    assert At(rows, 0, 1, two) && At(rows, 2, 1, two);
    assert IsCondition(c, one, 0) && IsCondition(c, two, 1);
  }

  /** Two rows sharing a condition with row 0 are, with row 0, condition-linked to it. */
  lemma LinkedThroughRowZero(c: Corpus, conds: map<Field, set<nat>>)
    requires ShareCondition(c, conds, 0, 1) && ShareCondition(c, conds, 0, 2)
    ensures ConditionLinked(c, conds, 0, 0) && ConditionLinked(c, conds, 0, 1) && ConditionLinked(c, conds, 0, 2)
  {
    assert IsConditionChain(c, conds, [0]);
    assert IsConditionChain(c, conds, [0, 1]);
    assert IsConditionChain(c, conds, [0, 2]);
  }

  /** In the example, row 0 shares "1" at column 0 with row 1 and "2" at column 1 with row 2. */
  lemma ExampleLinks(c: Corpus, conds: map<Field, set<nat>>)
    requires c.rows == ExampleRows()
    requires forall w :: w in c.duplicated <==> IsDuplicated(c.rows, w)
    requires IsConditionMap(c, conds)
    ensures ConditionLinked(c, conds, 0, 0) && ConditionLinked(c, conds, 0, 1) && ConditionLinked(c, conds, 0, 2)
  {
    var rows := c.rows;
    ExampleRowsAre();
    ExampleConditions(c, conds);
    assert Qualifies(conds, rows[0], 0) && Qualifies(conds, rows[1], 0);
    assert Qualifies(conds, rows[0], 1) && Qualifies(conds, rows[2], 1);
    assert ShareCondition(c, conds, 0, 1) && ShareCondition(c, conds, 0, 2);
    LinkedThroughRowZero(c, conds);
  }

  /** Groups that are the condition classes of the example corpus, pairwise disjoint, form one group of all three rows. */
  lemma ExampleClasses(c: Corpus, conds: map<Field, set<nat>>, g: map<nat, set<nat>>)
    requires |c.rows| == 3
    requires ConditionLinked(c, conds, 0, 0) && ConditionLinked(c, conds, 0, 1) && ConditionLinked(c, conds, 0, 2)
    requires AreConditionClasses(c, conds, g) && CoverListed(c, conds, g)
    requires forall r1, r2 :: r1 in g && r2 in g && r1 != r2 ==> g[r1] !! g[r2]
    ensures g.Values == {{0, 1, 2}}
  {
    ConditionLinkedListed(c, conds, 0, 0);
    var r0 :| r0 in g && 0 in g[r0];
    forall y ensures y in g[r0] <==> y in {0, 1, 2} {
      if y in g[r0] {
        ConditionLinkedListed(c, conds, 0, y);
      }
    }
    forall r | r in g ensures r == r0 {
      var x :| x in g[r];
      assert Listed(c, conds, x);
      assert x in g[r0];
    }
    assert g[r0] == {0, 1, 2};
    forall v ensures v in g.Values <==> v == {0, 1, 2} {
      if v in g.Values {
        var r :| r in g && g[r] == v;
      }
    }
  }

  /** With every row below `n` listed, no single-row block follows the groups. */
  lemma AllListed(listed: set<nat>, n: nat)
    requires forall x: nat :: x < n ==> x in listed
    ensures Unlisted(listed, n) == []
  {
  }

  /** Disjoint groups that all hold one member set `v` containing row 0 are one group. */
  lemma SingleGroup(g: map<nat, set<nat>>, r0: nat, v: set<nat>)
    requires r0 in g && g.Values == {v} && 0 in v
    requires forall r1, r2 :: r1 in g && r2 in g && r1 != r2 ==> g[r1] !! g[r2]
    ensures g == map[r0 := v]
  {
    forall r | r in g ensures r == r0 {
      assert g[r] in g.Values && g[r0] in g.Values;
    }
  }

  /** A report of a single group and no single-row blocks is that group as block 1, with totals 1. */
  lemma SingleBlockReport(groups: map<nat, set<nat>>, order: seq<nat>, listed: set<nat>, n: nat, rep: Report, r0: nat, v: set<nat>)
    requires groups == map[r0 := v]
    requires IsEnumeration(order, groups.Keys)
    requires IsReportOf(groups, order, listed, n, rep)
    requires Unlisted(listed, n) == []
    ensures rep == Report(1, [Entry(1, v)], 1)
  {
    assert order == [r0] by {
      assert order[0] == r0;
    }
    var lead := LeadingMembers(rep.entries, 1);
    assert ValuesInOrder(groups, order) == [v];
    assert multiset(lead) == multiset{v};
    assert lead[0] in multiset(lead);
  }

  /** A partition with a single group covers exactly the rows of that group. */
  lemma SingleGroupListed(g: map<nat, set<nat>>, m: RowToIds, r0: nat, v: set<nat>)
    requires g == map[r0 := v] && IsPartitionOf(g, m)
    ensures forall x: nat :: x in v ==> x in m.Keys
  {
    forall x: nat | x in v ensures x in m.Keys {
      assert r0 in g && x in g[r0];
    }
  }

  /** Every example row is grouped, so the report is one block of all three rows and nothing else. */
  lemma ExampleReport(groups: map<nat, set<nat>>, rowIds: RowToIds, order: seq<nat>, rep: Report)
    requires IsPartitionOf(groups, rowIds)
    requires IsEnumeration(order, groups.Keys)
    requires IsReportOf(groups, order, rowIds.Keys, 3, rep)
    requires groups.Values == {{0, 1, 2}}
    ensures rep == Report(1, [Entry(1, {0, 1, 2})], 1)
  {
    var v: set<nat> := {0, 1, 2};
    var r0 :| r0 in groups && groups[r0] == v;
    SingleGroup(groups, r0, v);
    SingleGroupListed(groups, rowIds, r0, v);
    forall x: nat | x < 3 ensures x in rowIds.Keys {
      assert x == 0 || x == 1 || x == 2;
      assert x in v;
    }
    AllListed(rowIds.Keys, 3);
    SingleBlockReport(groups, order, rowIds.Keys, 3, rep, r0, v);
  }

  /** Every completed run on lines read as the example rows forms one group of all three rows and reports it alone. */
  lemma ExampleOutcome(lines: seq<JavaString>, s: Stages)
    requires IsSplitOf(lines, s) && s.corpus.rows == ExampleRows()
    ensures s.groups.Values == {{0, 1, 2}}
    ensures s.report == Report(1, [Entry(1, {0, 1, 2})], 1)
  {
    ExampleLinks(s.corpus, s.conds);
    RunGroups(lines, s);
    ExampleClasses(s.corpus, s.conds, s.groups);
    ExampleReport(s.groups, s.rowIds, s.order, s.report);
  }

  /** Splitting the example lines completes with a single group of all three rows, reported as group 1. */
  method SplitExample() returns (r: Run)
    ensures r.Completed?
    ensures r.stages.groups.Values == {{0, 1, 2}}
    ensures r.stages.report == Report(1, [Entry(1, {0, 1, 2})], 1)
  {
    var lines := ExampleLines();
    DigitLinesAccepted(ExampleDigits());
    r := Split(lines);
    ExampleOutcome(lines, r.stages);
  }
}
