/**
 * Group-id assignment (`findGroupsForEachString`) and the reverse map
 * (`createGroups`).
 *
 * Each condition word gets an index k; the cell (word, column i) of a row
 * that matches a condition gets the id k * (maxColumns + 1) + i.
 */
module GroupIds {
  import opened Collections
  import opened Fields
  import opened Ingestion
  import opened Conditions
  import opened Linking

  /** `generatedUniqueGroupId`. */
  function GroupId(k: nat, i: nat, maxColumns: nat): nat
  {
    k * (maxColumns + 1) + i
  }

  lemma MulAtLeast(x: int, d: nat)
    requires x >= 1 && d >= 1
    ensures x * d >= d
  {
  }

  /** A quotient and a remainder below the divisor are determined by the dividend. */
  lemma QuotientUnique(d: int, q1: int, r1: int, q2: int, r2: int)
    requires d >= 1 && 0 <= r1 < d && 0 <= r2 < d
    requires q1 * d + r1 == q2 * d + r2
    ensures q1 == q2
  {
    if q1 > q2 {
      MulAtLeast(q1 - q2, d);
    } else if q2 > q1 {
      MulAtLeast(q2 - q1, d);
    }
  }

  /** The id decodes back to its condition index and its column, since the column is at most maxColumns. */
  lemma GroupIdDecode(k: nat, i: nat, maxColumns: nat)
    requires i <= maxColumns
    ensures GroupId(k, i, maxColumns) / (maxColumns + 1) == k
    ensures GroupId(k, i, maxColumns) % (maxColumns + 1) == i
  {
    var d := maxColumns + 1;
    var a := GroupId(k, i, maxColumns);
    var q, r := a / d, a % d;
    assert a == q * d + r;
    QuotientUnique(d, q, r, k, i);
  }

  /** Distinct (condition index, column) pairs never collide on a group id. */
  lemma GroupIdInjective(k1: nat, i1: nat, k2: nat, i2: nat, maxColumns: nat)
    requires i1 <= maxColumns && i2 <= maxColumns
    requires GroupId(k1, i1, maxColumns) == GroupId(k2, i2, maxColumns)
    ensures k1 == k2 && i1 == i2
  {
    GroupIdDecode(k1, i1, maxColumns);
    GroupIdDecode(k2, i2, maxColumns);
  }

  /**
   * `uniqueStringConditionIndex`: numbers the condition words 0, 1, ... in
   * the (unspecified) iteration order of the conditions map. Any injection of
   * the keys into [0, |conds|) is allowed.
   */
  ghost predicate IsIndexing(conds: map<Field, set<nat>>, index: map<Field, nat>)
  {
    && index.Keys == conds.Keys
    && (forall w :: w in index ==> index[w] < |conds|)
    && (forall w1, w2 :: w1 in index && w2 in index && index[w1] == index[w2] ==> w1 == w2)
  }

  method AssignIndices(conds: map<Field, set<nat>>) returns (index: map<Field, nat>)
    ensures IsIndexing(conds, index)
  {
    index := map[];
    var rest := conds.Keys;
    var k := 0;
    while rest != {}
      invariant rest <= conds.Keys
      invariant index.Keys == conds.Keys - rest
      invariant k == |conds.Keys| - |rest|
      invariant forall w :: w in index ==> index[w] < k
      invariant forall w1, w2 :: w1 in index && w2 in index && index[w1] == index[w2] ==> w1 == w2
      decreases rest
    {
      var w :| w in rest;
      index := index[w := k];
      k := k + 1;
      rest := rest - {w};
    }
  }

  /** Column `i` of `row` holds a condition word and `i` is one of that word's condition columns. */
  predicate Qualifies(conds: map<Field, set<nat>>, row: Row, i: nat)
  {
    i < |row| && row[i] in conds && i in conds[row[i]]
  }

  /** The id of a qualifying cell. */
  function IdAt(index: map<Field, nat>, row: Row, i: nat, maxColumns: nat): nat
    requires i < |row| && row[i] in index
  {
    GroupId(index[row[i]], i, maxColumns)
  }

  /**
   * The id list of one row: exactly the ids of its qualifying cells, in
   * increasing column order (the column of an id is its remainder modulo
   * maxColumns + 1).
   */
  ghost predicate IsRowIdList(row: Row, conds: map<Field, set<nat>>, index: map<Field, nat>, maxColumns: nat, ids: seq<nat>)
  {
    && index.Keys == conds.Keys
    && (forall g: nat :: g in ids <==> exists i: nat :: Qualifies(conds, row, i) && g == IdAt(index, row, i, maxColumns))
    && (forall a, b :: 0 <= a < b < |ids| ==> ids[a] % (maxColumns + 1) < ids[b] % (maxColumns + 1))
  }

  /**
   * `mapStringToGroupIds`: a row is listed exactly when one of its cells
   * qualifies, and then with its non-empty id list.
   */
  ghost predicate IsRowToIds(c: Corpus, conds: map<Field, set<nat>>, index: map<Field, nat>, m: RowToIds)
  {
    && (forall j: nat :: j in m <==> j < |c.rows| && exists i: nat :: Qualifies(conds, c.rows[j], i))
    && (forall j :: j in m ==> m[j] != [] && IsRowIdList(c.rows[j], conds, index, c.maxColumns, m[j]))
  }

  /** The inner loop of `findGroupsForEachString` over the columns of one row. */
  method RowIds(row: Row, conds: map<Field, set<nat>>, index: map<Field, nat>, maxColumns: nat)
    returns (ids: seq<nat>)
    requires index.Keys == conds.Keys
    requires |row| <= maxColumns
    ensures IsRowIdList(row, conds, index, maxColumns, ids)
    ensures ids == [] <==> forall i: nat :: !Qualifies(conds, row, i)
  {
    ids := [];
    var i := 0;
    while i < |row|
      invariant 0 <= i <= |row|
      invariant forall g: nat :: g in ids <==> exists i': nat :: i' < i && Qualifies(conds, row, i') && g == IdAt(index, row, i', maxColumns)
      invariant forall a, b :: 0 <= a < b < |ids| ==> ids[a] % (maxColumns + 1) < ids[b] % (maxColumns + 1)
      invariant forall a :: 0 <= a < |ids| ==> ids[a] % (maxColumns + 1) < i
    {
      var word := row[i];
      if word in conds && i in conds[word] {
        var g := GroupId(index[word], i, maxColumns);
        GroupIdDecode(index[word], i, maxColumns);
        assert g == IdAt(index, row, i, maxColumns);
        ids := ids + [g];
      }
      i := i + 1;
    }
    if ids != [] {
      assert ids[0] in ids;
    }
    forall i': nat | Qualifies(conds, row, i')
      ensures ids != []
    {
      assert IdAt(index, row, i', maxColumns) in ids;
    }
  }

  /** `findGroupsForEachString`: the id lists of all rows, keyed by row index. */
  method FindGroupsForEachRow(c: Corpus, conds: map<Field, set<nat>>, index: map<Field, nat>)
    returns (m: RowToIds)
    requires IsIndexing(conds, index)
    requires forall r :: 0 <= r < |c.rows| ==> |c.rows[r]| <= c.maxColumns
    ensures IsRowToIds(c, conds, index, m)
  {
    m := map[];
    var j := 0;
    while j < |c.rows|
      invariant 0 <= j <= |c.rows|
      invariant forall x: nat :: x in m <==> x < j && exists i: nat :: Qualifies(conds, c.rows[x], i)
      invariant forall x :: x in m ==> m[x] != [] && IsRowIdList(c.rows[x], conds, index, c.maxColumns, m[x])
    {
      var ids := RowIds(c.rows[j], conds, index, c.maxColumns);
      if ids != [] {
        m := m[j := ids];
      }
      j := j + 1;
    }
  }

  /** Two id lists holding the same ids, each in strictly increasing column order, are the same list. */
  lemma {:induction false} SortedByColumnUnique(a: seq<nat>, b: seq<nat>, d: nat)
    requires d > 0
    requires forall g :: g in a <==> g in b
    requires forall x, y :: 0 <= x < y < |a| ==> a[x] % d < a[y] % d
    requires forall x, y :: 0 <= x < y < |b| ==> b[x] % d < b[y] % d
    ensures a == b
  {
    assert |b| == 0 || b[0] in a;
    assert |a| == 0 || a[0] in b;
    if a != [] {
      var k :| 0 <= k < |b| && b[k] == a[0];
      var n :| 0 <= n < |a| && a[n] == b[0];
      assert k == 0 && n == 0 by {
        assert a[0] % d <= a[n] % d;
        assert b[0] % d <= b[k] % d;
      }
      forall g ensures g in a[1..] <==> g in b[1..] {
        if g in a[1..] {
          var x :| 0 <= x < |a| - 1 && a[1..][x] == g;
          assert a[0] % d < a[x + 1] % d;
          assert a[x + 1] == g && g in a;
          var y :| 0 <= y < |b| && b[y] == g;
          assert y != 0 && b[1..][y - 1] == g;
        }
        if g in b[1..] {
          var y :| 0 <= y < |b| - 1 && b[1..][y] == g;
          assert b[0] % d < b[y + 1] % d;
          assert b[y + 1] == g && g in b;
          var x :| 0 <= x < |a| && a[x] == g;
          assert x != 0 && a[1..][x - 1] == g;
        }
      }
      SortedByColumnUnique(a[1..], b[1..], d);
      assert a == [a[0]] + a[1..] && b == [b[0]] + b[1..];
    }
  }

  /** The conditions and their numbering determine `mapStringToGroupIds`. */
  lemma RowToIdsUnique(c: Corpus, conds: map<Field, set<nat>>, index: map<Field, nat>, m1: RowToIds, m2: RowToIds)
    requires IsRowToIds(c, conds, index, m1) && IsRowToIds(c, conds, index, m2)
    ensures m1 == m2
  {
    forall j | j in m1 ensures j in m2 && m1[j] == m2[j] {
      SortedByColumnUnique(m1[j], m2[j], c.maxColumns + 1);
    }
  }

  /**
   * `createGroups` as a property: `groups` maps each id to exactly the rows
   * whose id list contains it, and lists no id without rows.
   */
  ghost predicate IsReverseMap(m: RowToIds, groups: map<nat, set<nat>>)
  {
    && (forall g :: g in groups ==> groups[g] != {})
    && (forall g: nat, x: nat :: x in Lookup(groups, g) <==> x in m && g in m[x])
  }

  /** Adds row `j` to the group of each of its ids (`computeIfAbsent(groupId, ...).add(j)`). */
  method AddRow(groups: map<nat, set<nat>>, j: nat, ids: seq<nat>) returns (groups': map<nat, set<nat>>)
    requires forall g :: g in groups ==> groups[g] != {}
    ensures forall g :: g in groups' ==> groups'[g] != {}
    ensures forall g: nat, x: nat {:trigger x in Lookup(groups', g)} ::
      x in Lookup(groups', g) <==> x in Lookup(groups, g) || (x == j && g in ids)
  {
    groups' := groups;
    var t := 0;
    while t < |ids|
      invariant 0 <= t <= |ids|
      invariant forall g :: g in groups' ==> groups'[g] != {}
      invariant forall g: nat, x: nat {:trigger x in Lookup(groups', g)} ::
        x in Lookup(groups', g) <==> x in Lookup(groups, g) || (x == j && g in ids[..t])
    {
      ghost var before := groups';
      groups' := groups'[ids[t] := Lookup(groups', ids[t]) + {j}];
      forall g: nat, x: nat {:trigger x in Lookup(groups', g)}
        ensures x in Lookup(groups', g) <==> x in Lookup(groups, g) || (x == j && g in ids[..t + 1])
      {
        assert ids[..t + 1] == ids[..t] + [ids[t]];
        assert x in Lookup(before, g) <==> x in Lookup(groups, g) || (x == j && g in ids[..t]);
      }
      t := t + 1;
    }
    assert ids[..t] == ids;
  }

  /** `createGroups`: visits the listed rows in an unspecified order. */
  method CreateGroups(m: RowToIds) returns (groups: map<nat, set<nat>>)
    ensures IsReverseMap(m, groups)
  {
    groups := map[];
    var rest := m.Keys;
    while rest != {}
      invariant rest <= m.Keys
      invariant forall g :: g in groups ==> groups[g] != {}
      invariant forall g: nat, x: nat {:trigger x in Lookup(groups, g)} ::
        x in Lookup(groups, g) <==> x in m && x !in rest && g in m[x]
      decreases rest
    {
      var j :| j in rest;
      ghost var before := groups;
      groups := AddRow(groups, j, m[j]);
      forall g: nat, x: nat {:trigger x in Lookup(groups, g)}
        ensures x in Lookup(groups, g) <==> x in m && x !in rest - {j} && g in m[x]
      {
        assert x in Lookup(before, g) <==> x in m && x !in rest && g in m[x];
      }
      rest := rest - {j};
    }
  }

  // ---------------------------------------------------------------------------
  // What the ids mean
  // ---------------------------------------------------------------------------

  /** Rows `x` and `y` hold the same condition word in the same condition column. */
  ghost predicate ShareCondition(c: Corpus, conds: map<Field, set<nat>>, x: nat, y: nat)
  {
    && x < |c.rows| && y < |c.rows|
    && exists i: nat :: Qualifies(conds, c.rows[x], i) && Qualifies(conds, c.rows[y], i) && c.rows[x][i] == c.rows[y][i]
  }

  /**
   * Two rows carry a common id exactly when they hold the same condition word
   * in the same column: the id formula neither merges distinct conditions nor
   * splits one condition between rows.
   */
  lemma ShareIdIffShareCondition(c: Corpus, conds: map<Field, set<nat>>, index: map<Field, nat>, m: RowToIds, x: nat, y: nat)
    requires IsIndexing(conds, index)
    requires IsRowToIds(c, conds, index, m)
    requires forall r :: 0 <= r < |c.rows| ==> |c.rows[r]| <= c.maxColumns
    ensures ShareId(m, x, y) <==> ShareCondition(c, conds, x, y)
  {
    if ShareId(m, x, y) {
      var g :| g in m[x] && g in m[y];
      assert IsRowIdList(c.rows[x], conds, index, c.maxColumns, m[x]);
      assert IsRowIdList(c.rows[y], conds, index, c.maxColumns, m[y]);
      var i1: nat :| Qualifies(conds, c.rows[x], i1) && g == IdAt(index, c.rows[x], i1, c.maxColumns);
      var i2: nat :| Qualifies(conds, c.rows[y], i2) && g == IdAt(index, c.rows[y], i2, c.maxColumns);
      GroupIdInjective(index[c.rows[x][i1]], i1, index[c.rows[y][i2]], i2, c.maxColumns);
      assert c.rows[x][i1] == c.rows[y][i1];
    }
    if ShareCondition(c, conds, x, y) {
      var i: nat :| Qualifies(conds, c.rows[x], i) && Qualifies(conds, c.rows[y], i) && c.rows[x][i] == c.rows[y][i];
      var g := IdAt(index, c.rows[x], i, c.maxColumns);
      assert g == IdAt(index, c.rows[y], i, c.maxColumns);
      assert x in m && y in m;
      assert IsRowIdList(c.rows[x], conds, index, c.maxColumns, m[x]);
      assert IsRowIdList(c.rows[y], conds, index, c.maxColumns, m[y]);
      assert g in m[x] && g in m[y];
    }
  }

  /** Every initial group has at least two rows, because a condition needs two rows. */
  lemma InitialGroupsHaveTwoRows(c: Corpus, conds: map<Field, set<nat>>, index: map<Field, nat>, m: RowToIds, groups: map<nat, set<nat>>)
    requires IsConditionMap(c, conds)
    requires IsIndexing(conds, index)
    requires IsRowToIds(c, conds, index, m)
    requires IsReverseMap(m, groups)
    ensures forall g :: g in groups ==> |groups[g]| >= 2
  {
    forall g | g in groups
      ensures |groups[g]| >= 2
    {
      var x :| x in groups[g];
      assert x in Lookup(groups, g);
      assert x in m && x < |c.rows|;
      assert IsRowIdList(c.rows[x], conds, index, c.maxColumns, m[x]);
      var i: nat :| Qualifies(conds, c.rows[x], i) && g == IdAt(index, c.rows[x], i, c.maxColumns);
      var w := c.rows[x][i];
      assert i in Lookup(conds, w);
      var r1, r2 :| 0 <= r1 < r2 < |c.rows| && At(c.rows, r1, i, w) && At(c.rows, r2, i, w);
      assert Qualifies(conds, c.rows[r1], i) && g == IdAt(index, c.rows[r1], i, c.maxColumns);
      assert Qualifies(conds, c.rows[r2], i) && g == IdAt(index, c.rows[r2], i, c.maxColumns);
      assert r1 in m && r2 in m;
      assert IsRowIdList(c.rows[r1], conds, index, c.maxColumns, m[r1]);
      assert IsRowIdList(c.rows[r2], conds, index, c.maxColumns, m[r2]);
      assert r1 in Lookup(groups, g) && r2 in Lookup(groups, g);
      AtLeastTwo(groups[g], r1, r2);
    }
  }
}
