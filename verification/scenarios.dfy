/**
 * The inputs behind the as-written scenarios: each scenario's lines are run
 * through `readFile`, `formConditions` and `findGroupsForEachString`, and the
 * row-to-ids map that comes out is shown to be the one `AsWritten` starts
 * from.
 */
module Scenarios {
  import opened Collections
  import opened Fields
  import opened Ingestion
  import opened Conditions
  import opened Linking
  import opened GroupIds
  import opened AsWritten
  import opened Pipeline

  // ---------------------------------------------------------------------------
  // Columns
  // ---------------------------------------------------------------------------

  /** Column `i` of rows that are all wider than `i`. */
  function Column(rows: seq<Row>, i: nat): seq<Field>
    requires forall r :: 0 <= r < |rows| ==> i < |rows[r]|
  {
    seq(|rows|, r requires 0 <= r < |rows| => rows[r][i])
  }

  /** A value stands at two distinct positions of a sequence exactly when it occurs there at least twice. */
  lemma {:induction false} TwoPositionsIffCount(col: seq<Field>, w: Field)
    ensures (exists r1, r2 :: 0 <= r1 < r2 < |col| && col[r1] == w && col[r2] == w) <==> multiset(col)[w] >= 2
  {
    if col != [] {
      var n := |col| - 1;
      var init := col[..n];
      TwoPositionsIffCount(init, w);
      assert col == init + [col[n]];
      assert multiset(col)[w] == multiset(init)[w] + (if col[n] == w then 1 else 0);
      if multiset(col)[w] >= 2 && multiset(init)[w] < 2 {
        assert col[n] == w && w in multiset(init);
        var r1 :| 0 <= r1 < n && init[r1] == w;
        assert col[r1] == w;
      }
      if exists r1, r2 :: 0 <= r1 < r2 < |col| && col[r1] == w && col[r2] == w {
        var r1, r2 :| 0 <= r1 < r2 < |col| && col[r1] == w && col[r2] == w;
        if r2 < n {
          assert init[r1] == w && init[r2] == w;
        } else {
          assert init[r1] == w;
          assert w in multiset(init);
        }
      }
    }
  }

  /** Two distinct rows hold `w` in column `i` exactly when `w` occurs twice in that column. */
  lemma TwiceIffColumnCount(rows: seq<Row>, w: Field, i: nat)
    requires forall r :: 0 <= r < |rows| ==> i < |rows[r]|
    ensures TwiceBefore(rows, |rows|, w, i) <==> multiset(Column(rows, i))[w] >= 2
  {
    var col := Column(rows, i);
    TwoPositionsIffCount(col, w);
    if TwiceBefore(rows, |rows|, w, i) {
      var r1, r2 :| 0 <= r1 < r2 < |rows| && At(rows, r1, i, w) && At(rows, r2, i, w);
      assert col[r1] == w && col[r2] == w;
    }
    if multiset(col)[w] >= 2 {
      var r1, r2 :| 0 <= r1 < r2 < |col| && col[r1] == w && col[r2] == w;
      assert At(rows, r1, i, w) && At(rows, r2, i, w);
    }
  }

  /** Rows that are all `n` wide: the widest row is `n` wide. */
  lemma UniformWidth(rows: seq<Row>, n: nat, m: nat)
    requires rows != [] && forall r :: 0 <= r < |rows| ==> |rows[r]| == n
    requires IsMaxColumns(rows, m)
    ensures m == n
  {
    assert |rows[0]| <= m;
  }

  /**
   * For rows that are all `width` wide and hold only fields with a payload,
   * a map that lists column `i` for exactly the words occurring twice in
   * that column is the condition map.
   */
  lemma ConditionsFromColumns(lines: seq<JavaString>, c: Corpus, conds: map<Field, set<nat>>, width: nat)
    requires IsIngested(lines, c)
    requires forall r :: 0 <= r < |c.rows| ==> |c.rows[r]| == width
    requires forall r, i :: 0 <= r < |c.rows| && 0 <= i < |c.rows[r]| ==> HasPayload(c.rows[r][i])
    requires forall w: Field, i: nat :: i < width ==> (i in Lookup(conds, w) <==> multiset(Column(c.rows, i))[w] >= 2)
    requires forall w: Field, i: nat :: i >= width ==> i !in Lookup(conds, w)
    requires forall w :: w in conds ==> conds[w] != {}
    ensures IsConditionMap(c, conds)
  {
    var rows := c.rows;
    forall w: Field, i: nat ensures i in Lookup(conds, w) <==> IsCondition(c, w, i) {
      ConditionIffRepeatedInColumn(lines, c, w, i);
      if TwiceBefore(rows, |rows|, w, i) {
        var r1, r2 :| 0 <= r1 < r2 < |rows| && At(rows, r1, i, w) && At(rows, r2, i, w);
        assert HasPayload(rows[r1][i]);
      }
      if i < width {
        TwiceIffColumnCount(rows, w, i);
      }
    }
  }

  /** An id list given by its qualifying columns, in increasing order, is the row's id list. */
  lemma RowIdsFromColumns(row: Row, conds: map<Field, set<nat>>, index: map<Field, nat>, maxColumns: nat,
                          cols: seq<nat>, ids: seq<nat>)
    requires index.Keys == conds.Keys
    requires |row| <= maxColumns
    requires forall i: nat :: Qualifies(conds, row, i) <==> i in cols
    requires forall x, y :: 0 <= x < y < |cols| ==> cols[x] < cols[y]
    requires |ids| == |cols|
    requires forall k :: 0 <= k < |cols| ==> cols[k] < |row| && row[cols[k]] in index && ids[k] == IdAt(index, row, cols[k], maxColumns)
    ensures IsRowIdList(row, conds, index, maxColumns, ids)
  {
    forall k | 0 <= k < |ids| ensures ids[k] % (maxColumns + 1) == cols[k] {
      GroupIdDecode(index[row[cols[k]]], cols[k], maxColumns);
    }
    forall g: nat ensures g in ids <==> exists i: nat :: Qualifies(conds, row, i) && g == IdAt(index, row, i, maxColumns) {
      if g in ids {
        var k :| 0 <= k < |ids| && ids[k] == g;
        assert Qualifies(conds, row, cols[k]);
      }
      if exists i: nat :: Qualifies(conds, row, i) && g == IdAt(index, row, i, maxColumns) {
        var i: nat :| Qualifies(conds, row, i) && g == IdAt(index, row, i, maxColumns);
        var k :| 0 <= k < |cols| && cols[k] == i;
        assert ids[k] == g;
      }
    }
  }

  /** The id list of cell `i` alone: its id when it qualifies, nothing otherwise. */
  function CellIds(conds: map<Field, set<nat>>, index: map<Field, nat>, row: Row, i: nat, maxColumns: nat): seq<nat>
    requires index.Keys == conds.Keys
  {
    if Qualifies(conds, row, i) then [IdAt(index, row, i, maxColumns)] else []
  }

  /** The id list of a three-cell row is the id lists of its cells, left to right. */
  lemma ThreeCellRowIds(row: Row, conds: map<Field, set<nat>>, index: map<Field, nat>)
    requires index.Keys == conds.Keys && |row| == 3
    ensures IsRowIdList(row, conds, index, 3,
      CellIds(conds, index, row, 0, 3) + CellIds(conds, index, row, 1, 3) + CellIds(conds, index, row, 2, 3))
  {
    var c0, c1, c2 := CellIds(conds, index, row, 0, 3), CellIds(conds, index, row, 1, 3), CellIds(conds, index, row, 2, 3);
    var ids := c0 + c1 + c2;
    forall i: nat | i < 3 && Qualifies(conds, row, i) ensures IdAt(index, row, i, 3) % 4 == i {
      GroupIdDecode(index[row[i]], i, 3);
    }
    forall g: nat ensures g in ids <==> exists i: nat :: Qualifies(conds, row, i) && g == IdAt(index, row, i, 3) {
      if exists i: nat :: Qualifies(conds, row, i) && g == IdAt(index, row, i, 3) {
        var i: nat :| Qualifies(conds, row, i) && g == IdAt(index, row, i, 3);
        assert i == 0 || i == 1 || i == 2;
      }
    }
    assert forall x :: 0 <= x < |c0| ==> c0[x] % 4 == 0;
    assert forall x :: 0 <= x < |c1| ==> c1[x] % 4 == 1;
    assert forall x :: 0 <= x < |c2| ==> c2[x] % 4 == 2;
    assert |c0| <= 1 && |c1| <= 1 && |c2| <= 1;
  }

  /** A field and the digit it wraps. */
  lemma QuotedDigitInjective(a: nat, b: nat)
    requires a <= 9 && b <= 9
    ensures QuotedDigit(a) == QuotedDigit(b) <==> a == b
  {
    if QuotedDigit(a) == QuotedDigit(b) {
      assert QuotedDigit(a)[1] == QuotedDigit(b)[1];
    }
  }

  /** The characters `"a";"b"` are, as a Java `String`, two quoted digits joined by `;`. */
  lemma DigitLine2(a: char, b: char)
    requires '0' <= a <= '9' && '0' <= b <= '9'
    ensures Utf16(['"', a, '"', ';', '"', b, '"']) ==
      QuotedDigit(a as int - '0' as int) + [Semicolon] + QuotedDigit(b as int - '0' as int)
  {
    var s := ['"', a, '"', ';', '"', b, '"'];
    var t := QuotedDigit(a as int - '0' as int) + [Semicolon] + QuotedDigit(b as int - '0' as int);
    Utf16OfBmp(s);
    assert |t| == |s|;
    forall k | 0 <= k < |s| ensures Utf16(s)[k] == t[k] {
      assert Utf16(s)[k] as int == s[k] as int;
    }
  }

  /** A quoted digit has a non-empty payload. */
  lemma QuotedDigitsHavePayload(d: nat)
    requires d <= 9
    ensures HasPayload(QuotedDigit(d))
  {
    QuotedDigitValid(d);
  }

  // ---------------------------------------------------------------------------
  // Digit tables: lines of three quoted decimal digits
  // ---------------------------------------------------------------------------

  /** Column `i` of a digit table, as digits. */
  function DigitColumn(d: seq<(nat, nat, nat)>, i: nat): seq<nat>
    requires i < 3
  {
    seq(|d|, k requires 0 <= k < |d| => Digit(d[k], i))
  }

  /** Digits as quoted fields. */
  function Quoted(ds: seq<nat>): seq<Field>
    requires forall k :: 0 <= k < |ds| ==> ds[k] <= 9
  {
    seq(|ds|, k requires 0 <= k < |ds| => QuotedDigit(ds[k]))
  }

  /** Reading a non-empty digit table gives its rows, three columns wide. */
  lemma DigitTableIngested(d: seq<(nat, nat, nat)>, c: Corpus)
    requires IsDigitTable(d) && d != [] && IsIngested(DigitLines(d), c)
    ensures c.rows == DigitRows(d) && c.maxColumns == 3
  {
    DigitLinesAccepted(d);
    UniformWidth(c.rows, 3, c.maxColumns);
  }

  /** A column of a digit table's rows is the column of its digits, quoted. */
  lemma DigitColumnQuoted(d: seq<(nat, nat, nat)>, i: nat)
    requires IsDigitTable(d) && i < 3
    ensures forall k :: 0 <= k < |DigitColumn(d, i)| ==> DigitColumn(d, i)[k] <= 9
    ensures Column(DigitRows(d), i) == Quoted(DigitColumn(d, i))
  {
  }

  /** A quoted digit occurs in the quoted sequence as often as the digit in the digits. */
  lemma {:induction false} QuotedCount(ds: seq<nat>, v: nat)
    requires forall k :: 0 <= k < |ds| ==> ds[k] <= 9
    requires v <= 9
    ensures multiset(Quoted(ds))[QuotedDigit(v)] == multiset(ds)[v]
  {
    if ds != [] {
      var n := |ds| - 1;
      QuotedCount(ds[..n], v);
      assert ds == ds[..n] + [ds[n]];
      assert Quoted(ds) == Quoted(ds[..n]) + [QuotedDigit(ds[n])];
      QuotedDigitInjective(ds[n], v);
    }
  }

  /** A field repeats among quoted digits exactly when it quotes a repeated digit. */
  lemma QuotedRepeats(ds: seq<nat>, w: Field)
    requires forall k :: 0 <= k < |ds| ==> ds[k] <= 9
    ensures multiset(Quoted(ds))[w] >= 2 <==> exists v: nat :: v <= 9 && w == QuotedDigit(v) && multiset(ds)[v] >= 2
  {
    if multiset(Quoted(ds))[w] >= 2 {
      assert w in multiset(Quoted(ds));
      var k :| 0 <= k < |ds| && Quoted(ds)[k] == w;
      QuotedCount(ds, ds[k]);
    }
    if exists v: nat :: v <= 9 && w == QuotedDigit(v) && multiset(ds)[v] >= 2 {
      var v: nat :| v <= 9 && w == QuotedDigit(v) && multiset(ds)[v] >= 2;
      QuotedCount(ds, v);
    }
  }

  /**
   * `m` lists column `i` for exactly the quoted digits repeated in column `i`
   * of the digit table `d`, no column past the third, and no word without a
   * column: the shape of a digit table's condition map.
   */
  ghost predicate DigitConditionShape(d: seq<(nat, nat, nat)>, m: map<Field, set<nat>>)
  {
    && (forall w: Field, i: nat :: i < 3 ==>
         (i in Lookup(m, w) <==> exists v: nat :: v <= 9 && w == QuotedDigit(v) && multiset(DigitColumn(d, i))[v] >= 2))
    && (forall w: Field, i: nat :: i >= 3 ==> i !in Lookup(m, w))
    && (forall w :: w in m ==> m[w] != {})
  }

  /**
   * For a digit table, a map of the shape `DigitConditionShape` is the
   * condition map.
   */
  lemma DigitTableConditions(d: seq<(nat, nat, nat)>, c: Corpus, conds: map<Field, set<nat>>)
    requires IsDigitTable(d) && d != [] && IsIngested(DigitLines(d), c)
    requires DigitConditionShape(d, conds)
    ensures IsConditionMap(c, conds)
  {
    DigitTableIngested(d, c);
    forall w: Field, i: nat ensures i < 3 ==> (i in Lookup(conds, w) <==> multiset(Column(c.rows, i))[w] >= 2) {
      if i < 3 {
        DigitColumnQuoted(d, i);
        QuotedRepeats(DigitColumn(d, i), w);
      }
    }
    forall r, i | 0 <= r < |c.rows| && 0 <= i < |c.rows[r]| ensures HasPayload(c.rows[r][i]) {
      QuotedDigitsHavePayload(Digit(d[r], i));
    }
    ConditionsFromColumns(DigitLines(d), c, conds, 3);
  }

  /** A map shaped like the condition map of a digit table is that condition map. */
  lemma ConditionsFromTable(d: seq<(nat, nat, nat)>, c: Corpus, conds: map<Field, set<nat>>, expected: map<Field, set<nat>>)
    requires IsDigitTable(d) && d != [] && IsIngested(DigitLines(d), c) && IsConditionMap(c, conds)
    requires DigitConditionShape(d, expected)
    ensures conds == expected
  {
    DigitTableConditions(d, c, expected);
    ConditionMapUnique(c, conds, expected);
  }

  /** A column in which only `t` repeats lists just the word `"t"`. */
  lemma OneRepeat(ds: seq<nat>, t: nat, w: Field)
    requires t <= 9
    requires forall v: nat :: multiset(ds)[v] >= 2 <==> v == t
    ensures w == QuotedDigit(t) <==> exists v: nat :: v <= 9 && w == QuotedDigit(v) && multiset(ds)[v] >= 2
  {
    if w == QuotedDigit(t) {
      assert multiset(ds)[t] >= 2;
    }
  }

  /** A column in which only `t1` and `t2` repeat lists just the words `"t1"` and `"t2"`. */
  lemma TwoRepeats(ds: seq<nat>, t1: nat, t2: nat, w: Field)
    requires t1 <= 9 && t2 <= 9
    requires forall v: nat :: multiset(ds)[v] >= 2 <==> v == t1 || v == t2
    ensures w == QuotedDigit(t1) || w == QuotedDigit(t2) <==> exists v: nat :: v <= 9 && w == QuotedDigit(v) && multiset(ds)[v] >= 2
  {
    if w == QuotedDigit(t1) {
      assert multiset(ds)[t1] >= 2;
    } else if w == QuotedDigit(t2) {
      assert multiset(ds)[t2] >= 2;
    }
  }

  // ---------------------------------------------------------------------------
  // The conditions ("1",0), ("2",1), ("3",2), shared by scenarios 1 and 4
  // ---------------------------------------------------------------------------

  function ThreeConds(): map<Field, set<nat>>
  {
    map[QuotedDigit(1) := {0}, QuotedDigit(2) := {1}, QuotedDigit(3) := {2}]
  }

  /** The id of the condition (`"d"`, `i`) under `index`, for three-column rows. */
  function ConditionId(index: map<Field, nat>, d: nat, i: nat): nat
    requires d <= 9 && QuotedDigit(d) in index
  {
    GroupId(index[QuotedDigit(d)], i, 3)
  }

  /** Column `i` is a condition column of exactly the word `"i+1"`. */
  lemma ThreeCondsColumn(w: Field, i: nat)
    requires i < 3
    ensures i in Lookup(ThreeConds(), w) <==> w == QuotedDigit(i + 1)
  {
    QuotedDigitInjective(1, 2);
    QuotedDigitInjective(2, 3);
    QuotedDigitInjective(1, 3);
  }

  /** Every word of `ThreeConds` has a condition column, and none past the third. */
  lemma ThreeCondsShape()
    ensures forall w :: w in ThreeConds() ==> ThreeConds()[w] != {}
    ensures forall w: Field, i: nat :: i >= 3 ==> i !in Lookup(ThreeConds(), w)
  {
  }

  /** A digit table in which column `i` repeats only `i+1` has the conditions ("1",0), ("2",1), ("3",2). */
  lemma ThreeCondsFromTable(d: seq<(nat, nat, nat)>, c: Corpus, conds: map<Field, set<nat>>)
    requires IsDigitTable(d) && d != [] && IsIngested(DigitLines(d), c)
    requires IsConditionMap(c, conds)
    requires forall v: nat :: multiset(DigitColumn(d, 0))[v] >= 2 <==> v == 1
    requires forall v: nat :: multiset(DigitColumn(d, 1))[v] >= 2 <==> v == 2
    requires forall v: nat :: multiset(DigitColumn(d, 2))[v] >= 2 <==> v == 3
    ensures conds == ThreeConds()
  {
    forall w: Field, i: nat | i < 3
      ensures i in Lookup(ThreeConds(), w) <==> exists v: nat :: v <= 9 && w == QuotedDigit(v) && multiset(DigitColumn(d, i))[v] >= 2
    {
      ThreeCondsColumn(w, i);
      OneRepeat(DigitColumn(d, i), i + 1, w);
    }
    ThreeCondsShape();
    ConditionsFromTable(d, c, conds, ThreeConds());
  }

  /** Cell `i` qualifies exactly when it holds `"i+1"`. */
  lemma ThreeCondsQualifies(row: Row, i: nat)
    ensures Qualifies(ThreeConds(), row, i) <==> i < |row| && i < 3 && row[i] == QuotedDigit(i + 1)
  {
    QuotedDigitInjective(1, 2);
    QuotedDigitInjective(2, 3);
    QuotedDigitInjective(1, 3);
  }

  /** Cell `i` of the row `"d0";"d1";"d2"` qualifies exactly when it holds `"i+1"`. */
  lemma ThreeDigitQualifies(d0: nat, d1: nat, d2: nat, i: nat)
    requires d0 <= 9 && d1 <= 9 && d2 <= 9
    ensures Qualifies(ThreeConds(), [QuotedDigit(d0), QuotedDigit(d1), QuotedDigit(d2)], i) <==>
      (i == 0 && d0 == 1) || (i == 1 && d1 == 2) || (i == 2 && d2 == 3)
  {
    ThreeCondsQualifies([QuotedDigit(d0), QuotedDigit(d1), QuotedDigit(d2)], i);
    QuotedDigitInjective(d0, 1);
    QuotedDigitInjective(d1, 2);
    QuotedDigitInjective(d2, 3);
  }

  /** The ids of the row `"d0";"d1";"d2"`: one for each column `i` holding `"i+1"`. */
  function ThreeDigitIds(index: map<Field, nat>, t: (nat, nat, nat)): seq<nat>
    requires QuotedDigit(1) in index && QuotedDigit(2) in index && QuotedDigit(3) in index
  {
    (if t.0 == 1 then [ConditionId(index, 1, 0)] else []) +
    (if t.1 == 2 then [ConditionId(index, 2, 1)] else []) +
    (if t.2 == 3 then [ConditionId(index, 3, 2)] else [])
  }

  /** The id list of the row `"d0";"d1";"d2"` under the conditions ("1",0), ("2",1), ("3",2). */
  lemma ThreeDigitRowIds(index: map<Field, nat>, t: (nat, nat, nat))
    requires IsIndexing(ThreeConds(), index) && t.0 <= 9 && t.1 <= 9 && t.2 <= 9
    ensures IsRowIdList([QuotedDigit(t.0), QuotedDigit(t.1), QuotedDigit(t.2)], ThreeConds(), index, 3, ThreeDigitIds(index, t))
  {
    var row := [QuotedDigit(t.0), QuotedDigit(t.1), QuotedDigit(t.2)];
    ThreeCellRowIds(row, ThreeConds(), index);
    ThreeDigitQualifies(t.0, t.1, t.2, 0);
    ThreeDigitQualifies(t.0, t.1, t.2, 1);
    ThreeDigitQualifies(t.0, t.1, t.2, 2);
    assert CellIds(ThreeConds(), index, row, 0, 3) == if t.0 == 1 then [ConditionId(index, 1, 0)] else [];
    assert CellIds(ThreeConds(), index, row, 1, 3) == if t.1 == 2 then [ConditionId(index, 2, 1)] else [];
    assert CellIds(ThreeConds(), index, row, 2, 3) == if t.2 == 3 then [ConditionId(index, 3, 2)] else [];
  }

  /** The numbering "1" to 0, "2" to 1, "3" to 2. */
  function ThreeIndex(): map<Field, nat>
  {
    map[QuotedDigit(1) := 0, QuotedDigit(2) := 1, QuotedDigit(3) := 2]
  }

  lemma ThreeIndexing()
    ensures IsIndexing(ThreeConds(), ThreeIndex())
  {
    QuotedDigitInjective(1, 2);
    QuotedDigitInjective(2, 3);
    QuotedDigitInjective(1, 3);
    assert |ThreeConds()| == |{QuotedDigit(1), QuotedDigit(2), QuotedDigit(3)}| == 3;
  }

  /** Under `ThreeIndex` the condition ("d", d-1) has the id 5 * (d - 1). */
  lemma ThreeIndexId(d: nat)
    requires 1 <= d <= 3
    ensures QuotedDigit(d) in ThreeIndex() && ConditionId(ThreeIndex(), d, d - 1) == 5 * (d - 1)
  {
    QuotedDigitInjective(d, 1);
    QuotedDigitInjective(d, 2);
    QuotedDigitInjective(d, 3);
  }

  // ---------------------------------------------------------------------------
  // Scenario 1: the lines "1";"2";"3"  "1";"4";"5"  "6";"2";"7"  "8";"9";"3"
  // ---------------------------------------------------------------------------

  function LostDigits(): seq<(nat, nat, nat)>
  {
    [(1, 2, 3), (1, 4, 5), (6, 2, 7), (8, 9, 3)]
  }

  lemma LostRepeats0()
    ensures forall v: nat :: multiset(DigitColumn(LostDigits(), 0))[v] >= 2 <==> v == 1
  {
    assert DigitColumn(LostDigits(), 0) == [1, 1, 6, 8];
  }

  lemma LostRepeats1()
    ensures forall v: nat :: multiset(DigitColumn(LostDigits(), 1))[v] >= 2 <==> v == 2
  {
    assert DigitColumn(LostDigits(), 1) == [2, 4, 2, 9];
  }

  lemma LostRepeats2()
    ensures forall v: nat :: multiset(DigitColumn(LostDigits(), 2))[v] >= 2 <==> v == 3
  {
    assert DigitColumn(LostDigits(), 2) == [3, 5, 7, 3];
  }

  lemma LostListed(rows: seq<Row>)
    requires rows == DigitRows(LostDigits())
    ensures forall j: nat :: j in LostRowsIds() <==> j < |rows| && exists i: nat :: Qualifies(ThreeConds(), rows[j], i)
  {
    forall j: nat ensures j in LostRowsIds() <==> j < |rows| && exists i: nat :: Qualifies(ThreeConds(), rows[j], i) {
      if j < 4 {
        var i := if j == 3 then 2 else if j == 2 then 1 else 0;
        ThreeCondsQualifies(rows[j], i);
      }
    }
  }

  /** Under `ThreeIndex`, row `j` of scenario 1 has the ids its digits give. */
  lemma LostIds(j: nat)
    requires j < 4
    ensures QuotedDigit(1) in ThreeIndex() && QuotedDigit(2) in ThreeIndex() && QuotedDigit(3) in ThreeIndex()
    ensures j in LostRowsIds() && LostRowsIds()[j] == ThreeDigitIds(ThreeIndex(), LostDigits()[j])
  {
    ThreeIndexId(1);
    ThreeIndexId(2);
    ThreeIndexId(3);
    if j == 0 {
      assert LostRowsIds()[0] == ThreeDigitIds(ThreeIndex(), LostDigits()[0]);
    } else if j == 1 {
      assert LostRowsIds()[1] == ThreeDigitIds(ThreeIndex(), LostDigits()[1]);
    } else if j == 2 {
      assert LostRowsIds()[2] == ThreeDigitIds(ThreeIndex(), LostDigits()[2]);
    } else {
      assert LostRowsIds()[3] == ThreeDigitIds(ThreeIndex(), LostDigits()[3]);
    }
  }

  lemma LostIdList(j: nat)
    requires j < 4
    ensures j in LostRowsIds() && LostRowsIds()[j] != [] &&
      IsRowIdList(DigitRows(LostDigits())[j], ThreeConds(), ThreeIndex(), 3, LostRowsIds()[j])
  {
    ThreeIndexing();
    ThreeDigitRowIds(ThreeIndex(), LostDigits()[j]);
    LostIds(j);
  }

  lemma LostRowToIds(c: Corpus)
    requires c.rows == DigitRows(LostDigits()) && c.maxColumns == 3
    ensures IsRowToIds(c, ThreeConds(), ThreeIndex(), LostRowsIds())
  {
    var rows, m := c.rows, LostRowsIds();
    forall j | j in m ensures m[j] != [] && IsRowIdList(rows[j], ThreeConds(), ThreeIndex(), 3, m[j]) {
      LostIdList(j);
    }
    LostListed(rows);
  }

  /**
   * Reading the lines "1";"2";"3", "1";"4";"5", "6";"2";"7", "8";"9";"3" and
   * numbering "1", "2", "3" as 0, 1, 2 gives the map `LostRowsScenario`
   * starts from.
   */
  method LostRowsStages() returns (c: Corpus, conds: map<Field, set<nat>>, m: RowToIds)
    ensures c.rows == DigitRows(LostDigits()) && c.maxColumns == 3
    ensures conds == ThreeConds()
    ensures m == LostRowsIds()
  {
    var lines := DigitLines(LostDigits());
    DigitLinesAccepted(LostDigits());
    var r := Ingest(lines);
    if r.Aborted? {
      assert false;
    }
    c := r.corpus;
    DigitTableIngested(LostDigits(), c);
    conds := FormConditions(c);
    LostRepeats0();
    LostRepeats1();
    LostRepeats2();
    ThreeCondsFromTable(LostDigits(), c, conds);
    ThreeIndexing();
    m := FindGroupsForEachRow(c, conds, ThreeIndex());
    LostRowToIds(c);
    RowToIdsUnique(c, conds, ThreeIndex(), m, LostRowsIds());
  }

  // ---------------------------------------------------------------------------
  // Scenario 2: the lines "1";"2";"3"  "4";"2";"5"  "1";"6";"7"  "8";"9";"5"
  // "0";"6";"4"
  // ---------------------------------------------------------------------------

  function ChainDigits(): seq<(nat, nat, nat)>
  {
    [(1, 2, 3), (4, 2, 5), (1, 6, 7), (8, 9, 5), (0, 6, 4)]
  }

  function ChainConds(): map<Field, set<nat>>
  {
    map[QuotedDigit(1) := {0}, QuotedDigit(2) := {1}, QuotedDigit(5) := {2}, QuotedDigit(6) := {1}]
  }

  /** The numbering "1" to 0, "2" to 1, "5" to 2, "6" to 3. */
  function ChainIndex(): map<Field, nat>
  {
    map[QuotedDigit(1) := 0, QuotedDigit(2) := 1, QuotedDigit(5) := 2, QuotedDigit(6) := 3]
  }

  /** The index `ChainIndex` gives the word `"v"`. */
  function ChainPosition(v: nat): nat
  {
    if v == 1 then 0 else if v == 2 then 1 else if v == 5 then 2 else 3
  }

  /** The words of `ChainConds` are pairwise distinct. */
  lemma ChainWordsDistinct()
    ensures QuotedDigit(1) != QuotedDigit(2) && QuotedDigit(1) != QuotedDigit(5) && QuotedDigit(1) != QuotedDigit(6)
    ensures QuotedDigit(2) != QuotedDigit(5) && QuotedDigit(2) != QuotedDigit(6) && QuotedDigit(5) != QuotedDigit(6)
  {
    QuotedDigitInjective(1, 2);
    QuotedDigitInjective(1, 5);
    QuotedDigitInjective(1, 6);
    QuotedDigitInjective(2, 5);
    QuotedDigitInjective(2, 6);
    QuotedDigitInjective(5, 6);
  }

  lemma ChainCondsColumns(w: Field)
    ensures 0 in Lookup(ChainConds(), w) <==> w == QuotedDigit(1)
    ensures 1 in Lookup(ChainConds(), w) <==> w == QuotedDigit(2) || w == QuotedDigit(6)
    ensures 2 in Lookup(ChainConds(), w) <==> w == QuotedDigit(5)
    ensures forall i: nat :: i >= 3 ==> i !in Lookup(ChainConds(), w)
  {
    ChainWordsDistinct();
  }

  /** Every word of `ChainConds` has a condition column, and none past the third. */
  lemma ChainCondsShape()
    ensures forall w :: w in ChainConds() ==> ChainConds()[w] != {}
    ensures forall w: Field, i: nat :: i >= 3 ==> i !in Lookup(ChainConds(), w)
  {
    forall w | w in ChainConds() ensures ChainConds()[w] != {} {
      ChainCondsColumns(w);
    }
    forall w: Field ensures forall i: nat :: i >= 3 ==> i !in Lookup(ChainConds(), w) {
      ChainCondsColumns(w);
    }
  }

  lemma ChainRepeats0()
    ensures forall v: nat :: multiset(DigitColumn(ChainDigits(), 0))[v] >= 2 <==> v == 1
  {
    assert DigitColumn(ChainDigits(), 0) == [1, 4, 1, 8, 0];
  }

  lemma ChainRepeats1()
    ensures forall v: nat :: multiset(DigitColumn(ChainDigits(), 1))[v] >= 2 <==> v == 2 || v == 6
  {
    assert DigitColumn(ChainDigits(), 1) == [2, 2, 6, 9, 6];
  }

  lemma ChainRepeats2()
    ensures forall v: nat :: multiset(DigitColumn(ChainDigits(), 2))[v] >= 2 <==> v == 5
  {
    assert DigitColumn(ChainDigits(), 2) == [3, 5, 7, 5, 4];
  }

  /**
   * A digit table whose first column repeats only 1, whose second repeats
   * only 2 and 6 and whose third repeats only 5 has the conditions ("1",0),
   * ("2",1), ("6",1), ("5",2).
   */
  lemma ChainCondsFromTable(d: seq<(nat, nat, nat)>, c: Corpus, conds: map<Field, set<nat>>)
    requires IsDigitTable(d) && d != [] && IsIngested(DigitLines(d), c)
    requires IsConditionMap(c, conds)
    requires forall v: nat :: multiset(DigitColumn(d, 0))[v] >= 2 <==> v == 1
    requires forall v: nat :: multiset(DigitColumn(d, 1))[v] >= 2 <==> v == 2 || v == 6
    requires forall v: nat :: multiset(DigitColumn(d, 2))[v] >= 2 <==> v == 5
    ensures conds == ChainConds()
  {
    forall w: Field, i: nat | i < 3
      ensures i in Lookup(ChainConds(), w) <==> exists v: nat :: v <= 9 && w == QuotedDigit(v) && multiset(DigitColumn(d, i))[v] >= 2
    {
      ChainCondsColumns(w);
      if i == 0 {
        OneRepeat(DigitColumn(d, 0), 1, w);
      } else if i == 1 {
        TwoRepeats(DigitColumn(d, 1), 2, 6, w);
      } else {
        OneRepeat(DigitColumn(d, 2), 5, w);
      }
    }
    ChainCondsShape();
    ConditionsFromTable(d, c, conds, ChainConds());
  }

  lemma ChainIndexing()
    ensures IsIndexing(ChainConds(), ChainIndex())
  {
    ChainWordsDistinct();
    assert ChainConds().Keys == ChainIndex().Keys == {QuotedDigit(1), QuotedDigit(2), QuotedDigit(5), QuotedDigit(6)};
    assert |ChainConds()| == 4;
    forall w | w in ChainIndex() ensures ChainIndex()[w] < 4 {
    }
    forall w1, w2 | w1 in ChainIndex() && w2 in ChainIndex() && ChainIndex()[w1] == ChainIndex()[w2] ensures w1 == w2 {
    }
  }

  /** Cell `i` of the row `"d0";"d1";"d2"` qualifies exactly when its digit's condition column is `i`. */
  lemma ChainDigitQualifies(d0: nat, d1: nat, d2: nat, i: nat)
    requires d0 <= 9 && d1 <= 9 && d2 <= 9
    ensures Qualifies(ChainConds(), [QuotedDigit(d0), QuotedDigit(d1), QuotedDigit(d2)], i) <==>
      (i == 0 && d0 == 1) || (i == 1 && (d1 == 2 || d1 == 6)) || (i == 2 && d2 == 5)
  {
    var row := [QuotedDigit(d0), QuotedDigit(d1), QuotedDigit(d2)];
    ChainCondsColumns(row[0]);
    ChainCondsColumns(row[1]);
    ChainCondsColumns(row[2]);
    QuotedDigitInjective(d0, 1);
    QuotedDigitInjective(d1, 2);
    QuotedDigitInjective(d1, 6);
    QuotedDigitInjective(d2, 5);
  }

  lemma ChainIndexAt(v: nat)
    requires v == 1 || v == 2 || v == 5 || v == 6
    ensures QuotedDigit(v) in ChainIndex() && ChainIndex()[QuotedDigit(v)] == ChainPosition(v)
  {
    ChainWordsDistinct();
  }

  /** The ids of the row `"d0";"d1";"d2"` under `ChainConds` and `ChainIndex`. */
  function ChainDigitIds(t: (nat, nat, nat)): seq<nat>
  {
    (if t.0 == 1 then [GroupId(0, 0, 3)] else []) +
    (if t.1 == 2 then [GroupId(1, 1, 3)] else if t.1 == 6 then [GroupId(3, 1, 3)] else []) +
    (if t.2 == 5 then [GroupId(2, 2, 3)] else [])
  }

  lemma ChainDigitRowIds(t: (nat, nat, nat))
    requires t.0 <= 9 && t.1 <= 9 && t.2 <= 9
    ensures IsRowIdList([QuotedDigit(t.0), QuotedDigit(t.1), QuotedDigit(t.2)], ChainConds(), ChainIndex(), 3, ChainDigitIds(t))
  {
    var row := [QuotedDigit(t.0), QuotedDigit(t.1), QuotedDigit(t.2)];
    ChainIndexing();
    ThreeCellRowIds(row, ChainConds(), ChainIndex());
    ChainDigitQualifies(t.0, t.1, t.2, 0);
    ChainDigitQualifies(t.0, t.1, t.2, 1);
    ChainDigitQualifies(t.0, t.1, t.2, 2);
    if t.0 == 1 {
      ChainIndexAt(1);
    }
    if t.1 == 2 || t.1 == 6 {
      ChainIndexAt(t.1);
    }
    if t.2 == 5 {
      ChainIndexAt(5);
    }
    assert CellIds(ChainConds(), ChainIndex(), row, 0, 3) == if t.0 == 1 then [GroupId(0, 0, 3)] else [];
    assert CellIds(ChainConds(), ChainIndex(), row, 1, 3) ==
      if t.1 == 2 then [GroupId(1, 1, 3)] else if t.1 == 6 then [GroupId(3, 1, 3)] else [];
    assert CellIds(ChainConds(), ChainIndex(), row, 2, 3) == if t.2 == 5 then [GroupId(2, 2, 3)] else [];
  }

  lemma ChainListed(rows: seq<Row>)
    requires rows == DigitRows(ChainDigits())
    ensures forall j: nat :: j in ChainIds() <==> j < |rows| && exists i: nat :: Qualifies(ChainConds(), rows[j], i)
  {
    forall j: nat ensures j in ChainIds() <==> j < |rows| && exists i: nat :: Qualifies(ChainConds(), rows[j], i) {
      if j < 5 {
        var t, i := ChainDigits()[j], if j == 3 then 2 else 1;
        assert rows[j] == [QuotedDigit(t.0), QuotedDigit(t.1), QuotedDigit(t.2)];
        ChainDigitQualifies(t.0, t.1, t.2, i);
      }
    }
  }

  lemma ChainIdList(j: nat)
    requires j < 5
    ensures j in ChainIds() && ChainIds()[j] != [] &&
      IsRowIdList(DigitRows(ChainDigits())[j], ChainConds(), ChainIndex(), 3, ChainIds()[j])
  {
    var t := ChainDigits()[j];
    ChainDigitRowIds(t);
    if j == 0 {
      assert ChainIds()[0] == ChainDigitIds(t);
    } else if j == 1 {
      assert ChainIds()[1] == ChainDigitIds(t);
    } else if j == 2 {
      assert ChainIds()[2] == ChainDigitIds(t);
    } else if j == 3 {
      assert ChainIds()[3] == ChainDigitIds(t);
    } else {
      assert ChainIds()[4] == ChainDigitIds(t);
    }
  }

  lemma ChainRowToIds(c: Corpus)
    requires c.rows == DigitRows(ChainDigits()) && c.maxColumns == 3
    ensures IsRowToIds(c, ChainConds(), ChainIndex(), ChainIds())
  {
    var rows, m := c.rows, ChainIds();
    forall j | j in m ensures m[j] != [] && IsRowIdList(rows[j], ChainConds(), ChainIndex(), 3, m[j]) {
      ChainIdList(j);
    }
    ChainListed(rows);
  }

  /**
   * Reading the five chain lines and numbering "1", "2", "5", "6" as 0 to 3
   * gives the map `ChainScenarioCrashes` starts from.
   */
  method ChainStages() returns (c: Corpus, conds: map<Field, set<nat>>, m: RowToIds)
    ensures c.rows == DigitRows(ChainDigits()) && c.maxColumns == 3
    ensures conds == ChainConds()
    ensures m == ChainIds()
  {
    var lines := DigitLines(ChainDigits());
    DigitLinesAccepted(ChainDigits());
    var r := Ingest(lines);
    if r.Aborted? {
      assert false;
    }
    c := r.corpus;
    DigitTableIngested(ChainDigits(), c);
    conds := FormConditions(c);
    ChainRepeats0();
    ChainRepeats1();
    ChainRepeats2();
    ChainCondsFromTable(ChainDigits(), c, conds);
    ChainIndexing();
    m := FindGroupsForEachRow(c, conds, ChainIndex());
    ChainRowToIds(c);
    RowToIdsUnique(c, conds, ChainIndex(), m, ChainIds());
  }

  // ---------------------------------------------------------------------------
  // Scenario 3: the line "1";"2" twice
  // ---------------------------------------------------------------------------

  /** The line `"a";"b"` as a Java `String`. */
  function PairText(a: nat, b: nat): JavaString
    requires a <= 9 && b <= 9
  {
    Utf16(['"', DigitChar(a), '"', ';', '"', DigitChar(b), '"'])
  }

  /** The line `"a";"b"` is accepted and stored as its two quoted digits. */
  lemma PairLineSplits(a: nat, b: nat)
    requires a <= 9 && b <= 9
    ensures JavaSplit(PairText(a, b)) == [QuotedDigit(a), QuotedDigit(b)]
    ensures RowAccepted([QuotedDigit(a), QuotedDigit(b)])
  {
    var x, y := QuotedDigit(a), QuotedDigit(b);
    QuotedDigitValid(a);
    QuotedDigitValid(b);
    DigitLine2(DigitChar(a), DigitChar(b));
    var row := [x, y];
    assert Join(row[1..]) == y;
    assert Join(row) == x + [Semicolon] + y;
    RenderedRowReparses(row);
  }

  /** A table of lines, each given by its two decimal digits. */
  predicate IsPairTable(d: seq<(nat, nat)>)
  {
    forall k :: 0 <= k < |d| ==> d[k].0 <= 9 && d[k].1 <= 9
  }

  function PairLines(d: seq<(nat, nat)>): seq<JavaString>
    requires IsPairTable(d)
  {
    seq(|d|, k requires 0 <= k < |d| => PairText(d[k].0, d[k].1))
  }

  function PairRows(d: seq<(nat, nat)>): seq<Row>
    requires IsPairTable(d)
  {
    seq(|d|, k requires 0 <= k < |d| => [QuotedDigit(d[k].0), QuotedDigit(d[k].1)])
  }

  /** Every line of a pair table is accepted and stored as its quoted digits, and none throws. */
  lemma PairLinesAccepted(d: seq<(nat, nat)>)
    requires IsPairTable(d)
    ensures AcceptedRows(PairLines(d)) == PairRows(d)
    ensures !SomeLineCrashes(PairLines(d))
  {
    var lines, rows := PairLines(d), PairRows(d);
    forall k | 0 <= k < |d| ensures JavaSplit(lines[k]) == rows[k] && RowAccepted(rows[k]) {
      PairLineSplits(d[k].0, d[k].1);
    }
    AllLinesAccepted(lines, rows);
  }

  /** Reading a non-empty pair table gives its rows, two columns wide. */
  lemma PairTableIngested(d: seq<(nat, nat)>, c: Corpus)
    requires IsPairTable(d) && d != [] && IsIngested(PairLines(d), c)
    ensures c.rows == PairRows(d) && c.maxColumns == 2
  {
    PairLinesAccepted(d);
    UniformWidth(c.rows, 2, c.maxColumns);
  }

  /** Both lines of the scenario, as pairs of digits. */
  function TwinDigits(): seq<(nat, nat)>
  {
    [(1, 2), (1, 2)]
  }

  function TwinRows(): seq<Row>
  {
    PairRows(TwinDigits())
  }

  function TwinConds(): map<Field, set<nat>>
  {
    map[QuotedDigit(1) := {0}, QuotedDigit(2) := {1}]
  }

  /** One of the two numberings `uniqueStringConditionIndex` can produce. */
  function TwinIndex(): map<Field, nat>
  {
    map[QuotedDigit(1) := 0, QuotedDigit(2) := 1]
  }

  lemma TwinColumns(rows: seq<Row>, w: Field)
    requires rows == TwinRows()
    ensures 0 in Lookup(TwinConds(), w) <==> multiset(Column(rows, 0))[w] >= 2
    ensures 1 in Lookup(TwinConds(), w) <==> multiset(Column(rows, 1))[w] >= 2
  {
    QuotedDigitInjective(1, 2);
    assert Column(rows, 0) == [QuotedDigit(1), QuotedDigit(1)];
    assert Column(rows, 1) == [QuotedDigit(2), QuotedDigit(2)];
  }

  lemma TwinConditions(lines: seq<JavaString>, c: Corpus, conds: map<Field, set<nat>>)
    requires IsIngested(lines, c) && c.rows == TwinRows()
    requires IsConditionMap(c, conds)
    ensures conds == TwinConds()
  {
    forall w: Field, i: nat ensures i < 2 ==> (i in Lookup(TwinConds(), w) <==> multiset(Column(c.rows, i))[w] >= 2) {
      TwinColumns(c.rows, w);
    }
    QuotedDigitValid(1);
    QuotedDigitValid(2);
    ConditionsFromColumns(lines, c, TwinConds(), 2);
    ConditionMapUnique(c, conds, TwinConds());
  }

  lemma TwinIndexing()
    ensures IsIndexing(TwinConds(), TwinIndex())
  {
    QuotedDigitInjective(1, 2);
    assert |TwinConds()| == |{QuotedDigit(1), QuotedDigit(2)}| == 2;
  }

  /** The row "1";"2" has both cells qualifying, with ids [0, 4]. */
  lemma TwinRowIdList(row: Row)
    requires row == [QuotedDigit(1), QuotedDigit(2)]
    ensures Qualifies(TwinConds(), row, 0)
    ensures IsRowIdList(row, TwinConds(), TwinIndex(), 2, [0, 4])
  {
    QuotedDigitInjective(1, 2);
    forall i: nat ensures Qualifies(TwinConds(), row, i) <==> i in [0, 1] {
    }
    RowIdsFromColumns(row, TwinConds(), TwinIndex(), 2, [0, 1], [0, 4]);
  }

  lemma TwinRowToIds(c: Corpus)
    requires c.rows == TwinRows() && c.maxColumns == 2
    ensures IsRowToIds(c, TwinConds(), TwinIndex(), TwinIds())
  {
    var row := [QuotedDigit(1), QuotedDigit(2)];
    assert c.rows == [row, row];
    TwinRowIdList(row);
    forall j: nat ensures j in TwinIds() <==> j < |c.rows| && exists i: nat :: Qualifies(TwinConds(), c.rows[j], i) {
      if j < 2 {
        assert Qualifies(TwinConds(), c.rows[j], 0);
      }
    }
  }

  /**
   * Reading the line "1";"2" twice and numbering "1" as 0 and "2" as 1 gives
   * both rows the ids [0, 4], the map `TwinScenario` starts from.
   */
  method TwinStages() returns (c: Corpus, conds: map<Field, set<nat>>, m: RowToIds)
    ensures c.rows == TwinRows() && c.maxColumns == 2
    ensures conds == TwinConds()
    ensures m == TwinIds()
  {
    var lines := PairLines(TwinDigits());
    PairLinesAccepted(TwinDigits());
    var r := Ingest(lines);
    if r.Aborted? {
      assert false;
    }
    c := r.corpus;
    PairTableIngested(TwinDigits(), c);
    conds := FormConditions(c);
    TwinConditions(lines, c, conds);
    TwinIndexing();
    m := FindGroupsForEachRow(c, conds, TwinIndex());
    TwinRowToIds(c);
    RowToIdsUnique(c, conds, TwinIndex(), m, TwinIds());
  }

  // ---------------------------------------------------------------------------
  // Scenario 4: the example lines "1";"2";"3"  "1";"5";"3"  "9";"2";"3"
  // ---------------------------------------------------------------------------

  lemma ThreeRowRepeats()
    ensures forall v: nat :: multiset(DigitColumn(ExampleDigits(), 0))[v] >= 2 <==> v == 1
    ensures forall v: nat :: multiset(DigitColumn(ExampleDigits(), 1))[v] >= 2 <==> v == 2
    ensures forall v: nat :: multiset(DigitColumn(ExampleDigits(), 2))[v] >= 2 <==> v == 3
  {
    assert DigitColumn(ExampleDigits(), 0) == [1, 1, 9];
    assert DigitColumn(ExampleDigits(), 1) == [2, 5, 2];
    assert DigitColumn(ExampleDigits(), 2) == [3, 3, 3];
  }

  /** Every row has a qualifying cell: its last column holds "3". */
  lemma ThreeRowListed(rows: seq<Row>, m: RowToIds)
    requires rows == DigitRows(ExampleDigits()) && m.Keys == {0, 1, 2}
    ensures forall j: nat :: j in m <==> j < |rows| && exists i: nat :: Qualifies(ThreeConds(), rows[j], i)
  {
    forall j: nat ensures j in m <==> j < |rows| && exists i: nat :: Qualifies(ThreeConds(), rows[j], i) {
      if j < 3 {
        ThreeCondsQualifies(rows[j], 2);
      }
    }
  }

  lemma ThreeRowIdList(index: map<Field, nat>, j: nat)
    requires IsIndexing(ThreeConds(), index) && j < 3
    ensures var m := ThreeRowIds(ConditionId(index, 1, 0), ConditionId(index, 2, 1), ConditionId(index, 3, 2));
      j in m && m[j] != [] && IsRowIdList(DigitRows(ExampleDigits())[j], ThreeConds(), index, 3, m[j])
  {
    var t := ExampleDigits()[j];
    ThreeDigitRowIds(index, t);
    var m := ThreeRowIds(ConditionId(index, 1, 0), ConditionId(index, 2, 1), ConditionId(index, 3, 2));
    if j == 0 {
      assert m[0] == ThreeDigitIds(index, t);
    } else if j == 1 {
      assert m[1] == ThreeDigitIds(index, t);
    } else {
      assert m[2] == ThreeDigitIds(index, t);
    }
  }

  lemma ThreeRowRowToIds(c: Corpus, index: map<Field, nat>)
    requires c.rows == DigitRows(ExampleDigits()) && c.maxColumns == 3
    requires IsIndexing(ThreeConds(), index)
    ensures IsRowToIds(c, ThreeConds(), index,
      ThreeRowIds(ConditionId(index, 1, 0), ConditionId(index, 2, 1), ConditionId(index, 3, 2)))
  {
    var rows := c.rows;
    var m := ThreeRowIds(ConditionId(index, 1, 0), ConditionId(index, 2, 1), ConditionId(index, 3, 2));
    forall j | j in m ensures m[j] != [] && IsRowIdList(rows[j], ThreeConds(), index, 3, m[j]) {
      ThreeRowIdList(index, j);
    }
    ThreeRowListed(rows, m);
  }

  /** Conditions in different columns have different ids. */
  lemma ColumnsSeparateIds(k1: nat, k2: nat, i1: nat, i2: nat)
    requires i1 < 3 && i2 < 3 && i1 != i2
    ensures GroupId(k1, i1, 3) != GroupId(k2, i2, 3)
  {
    GroupIdDecode(k1, i1, 3);
    GroupIdDecode(k2, i2, 3);
  }

  /**
   * Reading the example lines and numbering the conditions in any way gives
   * the rows the ids [a, b, c], [a, c] and [b, c], pairwise distinct, and the
   * as-written consolidation of those ids throws.
   */
  method ThreeRowStages() returns (c: Corpus, conds: map<Field, set<nat>>, index: map<Field, nat>, m: RowToIds)
    ensures c.rows == DigitRows(ExampleDigits()) && c.maxColumns == 3
    ensures conds == ThreeConds() && IsIndexing(conds, index)
    ensures m == ThreeRowIds(ConditionId(index, 1, 0), ConditionId(index, 2, 1), ConditionId(index, 3, 2))
    ensures var (a, b, z) := (ConditionId(index, 1, 0), ConditionId(index, 2, 1), ConditionId(index, 3, 2));
      a != b && b != z && a != z &&
      MergeAsWritten(ThreeRowGroups(a, b, z), map[], CollectPairsAsWritten(m, [0, 1, 2])) == Crashed
  {
    var lines := DigitLines(ExampleDigits());
    DigitLinesAccepted(ExampleDigits());
    var r := Ingest(lines);
    if r.Aborted? {
      assert false;
    }
    c := r.corpus;
    DigitTableIngested(ExampleDigits(), c);
    conds := FormConditions(c);
    ThreeRowRepeats();
    ThreeCondsFromTable(ExampleDigits(), c, conds);
    index := AssignIndices(conds);
    m := FindGroupsForEachRow(c, conds, index);
    var a, b, z := ConditionId(index, 1, 0), ConditionId(index, 2, 1), ConditionId(index, 3, 2);
    ThreeRowRowToIds(c, index);
    RowToIdsUnique(c, conds, index, m, ThreeRowIds(a, b, z));
    ColumnsSeparateIds(index[QuotedDigit(1)], index[QuotedDigit(2)], 0, 1);
    ColumnsSeparateIds(index[QuotedDigit(2)], index[QuotedDigit(3)], 1, 2);
    ColumnsSeparateIds(index[QuotedDigit(1)], index[QuotedDigit(3)], 0, 2);
    ThreeRowScenarioCrashes(a, b, z);
  }
}
