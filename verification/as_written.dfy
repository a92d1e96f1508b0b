/**
 * `mergeGroups` exactly as the code is written (LinesToGroupsSplitter.java,
 * lines 189-214), kept apart from the intended consolidation so that each of
 * its three departures can be exhibited on a concrete input:
 *  - the pair loop enqueues (last, second-to-last) |ids|-1 times instead of
 *    the consecutive pairs, so the first id of a row with three ids is never
 *    merged;
 *  - a root is found by at most one `parentGroup` hop, and an absent entry is
 *    unboxed from `null`;
 *  - a pair whose two parents coincide merges the group into itself and then
 *    removes it, together with all its rows.
 * A `NullPointerException` anywhere ends the run; it is the outcome `Crashed`.
 */
module AsWritten {
  import opened Collections
  import opened Linking
  import opened GroupIds
  import opened Consolidation

  datatype MergeOutcome = Crashed | Merged(groups: map<nat, set<nat>>)

  /** The pairs the first loop of `mergeGroups` enqueues for one row: (last, second-to-last), once per later id. */
  function RowPairsAsWritten(ids: seq<nat>): (ps: seq<(nat, nat)>)
    ensures forall t :: 0 <= t < |ps| ==> ps[t].0 in ids && ps[t].1 in ids
  {
    if |ids| < 2 then [] else seq(|ids| - 1, _ => (ids[|ids| - 1], ids[|ids| - 2]))
  }

  /** The first loop of `mergeGroups`, rows visited in the given order. */
  function CollectPairsAsWritten(m: RowToIds, order: seq<nat>): (pairs: seq<(nat, nat)>)
    requires forall k :: 0 <= k < |order| ==> order[k] in m
    ensures PairsFromRows(m, pairs)
  {
    if order == [] then []
    else
      var head := RowPairsAsWritten(m[order[0]]);
      var tail := CollectPairsAsWritten(m, order[1..]);
      assert forall t :: 0 <= t < |tail| ==> exists j :: j in m && tail[t].0 in m[j] && tail[t].1 in m[j];
      assert forall t :: |head| <= t < |head + tail| ==> (head + tail)[t] == tail[t - |head|];
      head + tail
  }

  /** Every row of `g1` is a row of some group of `g2`. */
  ghost predicate RowsWithin(g1: map<nat, set<nat>>, g2: map<nat, set<nat>>)
  {
    forall k, x :: k in g1 && x in g1[k] ==> exists k0 :: k0 in g2 && x in g2[k0]
  }

  /**
   * The second loop of `mergeGroups` as written: each parent is the id itself
   * when it is still a group and otherwise its single `parentGroup` entry; the
   * second parent's group is poured into the first's and removed even when
   * the two are the same group.
   */
  function MergeAsWritten(groups: map<nat, set<nat>>, parent: map<nat, nat>, pairs: seq<(nat, nat)>): (r: MergeOutcome)
    ensures r.Merged? ==> r.groups.Keys <= groups.Keys
    ensures r.Merged? ==> RowsWithin(r.groups, groups)
    decreases |pairs|
  {
    if pairs == [] then Merged(groups)
    else
      var (a, b) := pairs[0];
      if a !in groups && a !in parent then Crashed
      else if b !in groups && b !in parent then Crashed
      else
        var pa := if a in groups then a else parent[a];
        var pb := if b in groups then b else parent[b];
        if pa !in groups || pb !in groups then Crashed
        else
          var next := groups[pa := groups[pa] + groups[pb]] - {pb};
          var r := MergeAsWritten(next, parent[pb := pa], pairs[1..]);
          assert RowsWithin(next, groups) by {
            forall k, x | k in next && x in next[k]
              ensures exists k0 :: k0 in groups && x in groups[k0]
            {
              if k == pa && x !in groups[pa] {
                assert x in groups[pb];
              } else {
                assert x in groups[k];
              }
            }
          }
          r
  }

  /**
   * The first id of a row with three or more ids, when it differs from the
   * last two, occurs in none of that row's enqueued pairs, although the
   * intended pair list joins it to the second id.
   */
  lemma {:induction false} RowPairsSkipFirst(ids: seq<nat>)
    requires |ids| >= 3
    requires ids[0] != ids[|ids| - 1] && ids[0] != ids[|ids| - 2]
    ensures forall t :: 0 <= t < |RowPairsAsWritten(ids)| ==> ids[0] != RowPairsAsWritten(ids)[t].0 && ids[0] != RowPairsAsWritten(ids)[t].1
    ensures (ids[0], ids[1]) in ConsecutivePairs(ids)
    ensures (ids[0], ids[1]) !in RowPairsAsWritten(ids)
  {
    var ps := RowPairsAsWritten(ids);
    assert forall t :: 0 <= t < |ps| ==> ps[t] == (ids[|ids| - 1], ids[|ids| - 2]);
  }

  // ---------------------------------------------------------------------------
  // Scenario 1. Lines "1";"2";"3"  "1";"4";"5"  "6";"2";"7"  "8";"9";"3".
  // Conditions ("1",0), ("2",1), ("3",2) with indices 0, 1, 2 and maxColumns 3
  // give the ids 0, 5, 10; row 0 carries all three.
  // ---------------------------------------------------------------------------

  function LostRowsIds(): RowToIds
  {
    map[0 := [0, 5, 10], 1 := [0], 2 := [5], 3 := [10]]
  }

  function LostRowsGroups(): map<nat, set<nat>>
  {
    map[0 := {0, 1}, 5 := {0, 2}, 10 := {0, 3}]
  }

  lemma LostRowsReverseMap()
    ensures IsReverseMap(LostRowsIds(), LostRowsGroups())
  {
    var m, g0 := LostRowsIds(), LostRowsGroups();
    forall x: nat, g: nat
      ensures x in Lookup(g0, g) <==> x in m && g in m[x]
    {
      if x in m && g in m[x] {
        assert g in {0, 5, 10};
      }
    }
  }

  lemma LostRowsPairs()
    ensures CollectPairsAsWritten(LostRowsIds(), [0, 1, 2, 3]) == [(10, 5), (10, 5)]
  {
    var m := LostRowsIds();
    assert RowPairsAsWritten(m[0]) == [(10, 5), (10, 5)];
    assert CollectPairsAsWritten(m, [3]) == [];
    assert CollectPairsAsWritten(m, [2, 3]) == [];
    assert CollectPairsAsWritten(m, [1, 2, 3]) == [];
  }

  lemma LostRowsMerge()
    ensures MergeAsWritten(LostRowsGroups(), map[], [(10, 5), (10, 5)]) == Merged(map[0 := {0, 1}])
  {
    var g0 := LostRowsGroups();
    var g1 := g0[10 := g0[10] + g0[5]] - {5};
    assert g1.Keys == {0, 10} && g1[0] == {0, 1} && g1[10] == {0, 3, 2};
    var g2 := g1[10 := g1[10] + g1[10]] - {10};
    assert g2.Keys == {0} && g2[0] == {0, 1};
    assert g2 == map[0 := {0, 1}];
  }

  /** Row 2 is listed but lies in no group of the as-written result. */
  lemma LostRowsNotPartition()
    ensures !IsPartitionOf(map[0 := {0, 1}], LostRowsIds())
  {
    var groups: map<nat, set<nat>> := map[0 := {0, 1}];
    assert 2 in LostRowsIds();
    assert !exists r :: r in groups && 2 in groups[r];
  }

  /** Row 0 enqueues (10, 5) twice: the pair that reaches group 0 is missing, and the repeat merges group 10 into itself and drops it, so rows 2 and 3 are reported nowhere. */
  lemma LostRowsScenario()
    ensures IsReverseMap(LostRowsIds(), LostRowsGroups())
    ensures CollectPairsAsWritten(LostRowsIds(), [0, 1, 2, 3]) == [(10, 5), (10, 5)]
    ensures MergeAsWritten(LostRowsGroups(), map[], [(10, 5), (10, 5)]) == Merged(map[0 := {0, 1}])
    ensures !IsPartitionOf(map[0 := {0, 1}], LostRowsIds())
  {
    LostRowsReverseMap();
    LostRowsPairs();
    LostRowsMerge();
    LostRowsNotPartition();
  }

  /** Intended: the four rows are linked through row 0 and form one group. */
  lemma LostRowsIntended(groups: map<nat, set<nat>>)
    requires IsPartitionOf(groups, LostRowsIds())
    requires GroupsAreLinkClasses(groups, LostRowsIds())
    ensures exists r :: r in groups && groups[r] == {0, 1, 2, 3}
  {
    var m := LostRowsIds();
    assert 0 in m;
    var r :| r in groups && 0 in groups[r];
    forall y ensures y in groups[r] <==> y in {0, 1, 2, 3} {
      if y in {0, 1, 2, 3} {
        assert ShareId(m, 0, y) || y == 0 by {
          if y == 1 { assert 0 in m[0] && 0 in m[1]; }
          if y == 2 { assert 5 in m[0] && 5 in m[2]; }
          if y == 3 { assert 10 in m[0] && 10 in m[3]; }
        }
        if y == 0 { LinkedRefl(m, 0); } else { LinkedStep(m, 0, y); }
      } else {
        if y in groups[r] {
          LinkedEnds(m, 0, y);
        }
      }
    }
  }

  // ---------------------------------------------------------------------------
  // Scenario 2. Lines "1";"2";"3"  "4";"2";"5"  "1";"6";"7"  "8";"9";"5"
  // "0";"6";"4". Conditions ("1",0), ("2",1), ("5",2), ("6",1) with indices
  // 0..3 and maxColumns 3 give the ids 0, 5, 10, 13; no row has three ids.
  // ---------------------------------------------------------------------------

  function ChainIds(): RowToIds
  {
    map[0 := [0, 5], 1 := [5, 10], 2 := [0, 13], 3 := [10], 4 := [13]]
  }

  function ChainGroups(): map<nat, set<nat>>
  {
    map[0 := {0, 2}, 5 := {0, 1}, 10 := {1, 3}, 13 := {2, 4}]
  }

  lemma ChainReverseMap()
    ensures IsReverseMap(ChainIds(), ChainGroups())
  {
    var m, g0 := ChainIds(), ChainGroups();
    forall x: nat, g: nat
      ensures x in Lookup(g0, g) <==> x in m && g in m[x]
    {
      if x in m && g in m[x] {
        assert g in {0, 5, 10, 13};
      }
    }
  }

  lemma ChainPairs()
    ensures CollectPairsAsWritten(ChainIds(), [0, 1, 2, 3, 4]) == [(5, 0), (10, 5), (13, 0)]
  {
    var m := ChainIds();
    assert CollectPairsAsWritten(m, [4]) == [];
    assert CollectPairsAsWritten(m, [3, 4]) == [];
    assert CollectPairsAsWritten(m, [2, 3, 4]) == [(13, 0)];
    assert CollectPairsAsWritten(m, [1, 2, 3, 4]) == [(10, 5), (13, 0)];
  }

  lemma ChainMerge()
    ensures MergeAsWritten(ChainGroups(), map[], [(5, 0), (10, 5), (13, 0)]) == Crashed
  {
    var g0 := ChainGroups();
    var g1 := g0[5 := g0[5] + g0[0]] - {0};
    assert g1.Keys == {5, 10, 13};
    var g2 := g1[10 := g1[10] + g1[5]] - {5};
    assert g2.Keys == {10, 13};
    assert MergeAsWritten(g2, map[0 := 5, 5 := 10], [(13, 0)]) == Crashed;
    assert MergeAsWritten(g1, map[0 := 5], [(10, 5), (13, 0)]) == Crashed;
  }

  /** Group 0 goes into 5 and 5 into 10; the third pair finds 0's parent 5, which is no longer a group. */
  lemma ChainScenarioCrashes()
    ensures IsReverseMap(ChainIds(), ChainGroups())
    ensures CollectPairsAsWritten(ChainIds(), [0, 1, 2, 3, 4]) == [(5, 0), (10, 5), (13, 0)]
    ensures MergeAsWritten(ChainGroups(), map[], [(5, 0), (10, 5), (13, 0)]) == Crashed
  {
    ChainReverseMap();
    ChainPairs();
    ChainMerge();
  }

  /** Every row of the chain scenario is linked to row 0. */
  lemma ChainLinked(m: RowToIds)
    requires m == ChainIds()
    ensures forall y :: y in m ==> Linked(m, 0, y)
  {
    assert ShareId(m, 0, 1) by { assert 5 in m[0] && 5 in m[1]; }
    assert ShareId(m, 0, 2) by { assert 0 in m[0] && 0 in m[2]; }
    assert ShareId(m, 1, 3) by { assert 10 in m[1] && 10 in m[3]; }
    assert ShareId(m, 2, 4) by { assert 13 in m[2] && 13 in m[4]; }
    LinkedRefl(m, 0);
    LinkedStep(m, 0, 1);
    LinkedStep(m, 0, 2);
    LinkedStep(m, 1, 3);
    LinkedStep(m, 2, 4);
    LinkedTrans(m, 0, 1, 3);
    LinkedTrans(m, 0, 2, 4);
    assert m.Keys == {0, 1, 2, 3, 4};
  }

  /** Intended: the five rows are one chain and form one group. */
  lemma ChainIntended(m: RowToIds, groups: map<nat, set<nat>>)
    requires m == ChainIds()
    requires IsPartitionOf(groups, m)
    requires GroupsAreLinkClasses(groups, m)
    ensures exists r :: r in groups && groups[r] == {0, 1, 2, 3, 4}
  {
    assert m.Keys == {0, 1, 2, 3, 4};
    var r :| r in groups && 0 in groups[r];
    ChainLinked(m);
    forall y ensures y in groups[r] <==> y in m {
      if y in groups[r] {
        LinkedEnds(m, 0, y);
      }
    }
    assert groups[r] == m.Keys;
  }

  // ---------------------------------------------------------------------------
  // Scenario 3. Lines "1";"2" twice. Conditions ("1",0), ("2",1) with indices
  // 0, 1 and maxColumns 2 give the ids 0 and 4 on both rows.
  // ---------------------------------------------------------------------------

  function TwinIds(): RowToIds
  {
    map[0 := [0, 4], 1 := [0, 4]]
  }

  function TwinGroups(): map<nat, set<nat>>
  {
    map[0 := {0, 1}, 4 := {0, 1}]
  }

  /** The second pair finds both parents equal to 4; group 4 is merged into itself and removed, and both rows vanish from the report. */
  lemma TwinScenario()
    ensures IsReverseMap(TwinIds(), TwinGroups())
    ensures CollectPairsAsWritten(TwinIds(), [0, 1]) == [(4, 0), (4, 0)]
    ensures MergeAsWritten(TwinGroups(), map[], [(4, 0), (4, 0)]) == Merged(map[])
    ensures !IsPartitionOf(map[], TwinIds())
  {
    var m, g0 := TwinIds(), TwinGroups();
    assert CollectPairsAsWritten(m, [1]) == [(4, 0)];
    var g1 := g0[4 := g0[4] + g0[0]] - {0};
    assert g1.Keys == {4} && g1[4] == {0, 1};
    assert g1 == map[4 := {0, 1}];
    assert g1[4 := g1[4] + g1[4]] - {4} == map[];
    assert 0 in m;
  }

  /** Intended: the two rows form one group. */
  lemma TwinIntended(groups: map<nat, set<nat>>)
    requires IsPartitionOf(groups, TwinIds())
    requires GroupsAreLinkClasses(groups, TwinIds())
    ensures exists r :: r in groups && groups[r] == {0, 1}
  {
    var m := TwinIds();
    assert 0 in m;
    var r :| r in groups && 0 in groups[r];
    assert ShareId(m, 0, 1) by { assert 0 in m[0] && 0 in m[1]; }
    LinkedRefl(m, 0);
    LinkedStep(m, 0, 1);
    forall y ensures y in groups[r] <==> y in {0, 1} {
      if y in groups[r] {
        LinkedEnds(m, 0, y);
      }
    }
  }

  // ---------------------------------------------------------------------------
  // Scenario 4. Lines "1";"2";"3"  "1";"5";"3"  "9";"2";"3". The conditions
  // ("1",0), ("2",1), ("3",2) get the ids a, b, c under whatever indexing;
  // row 0 carries [a, b, c], row 1 [a, c], row 2 [b, c].
  // ---------------------------------------------------------------------------

  function ThreeRowIds(a: nat, b: nat, c: nat): RowToIds
  {
    map[0 := [a, b, c], 1 := [a, c], 2 := [b, c]]
  }

  function ThreeRowGroups(a: nat, b: nat, c: nat): map<nat, set<nat>>
  {
    map[a := {0, 1}, b := {0, 2}, c := {0, 1, 2}]
  }

  lemma ThreeRowReverseMap(a: nat, b: nat, c: nat)
    requires a != b && b != c && a != c
    ensures IsReverseMap(ThreeRowIds(a, b, c), ThreeRowGroups(a, b, c))
  {
    var m, g0 := ThreeRowIds(a, b, c), ThreeRowGroups(a, b, c);
    forall x: nat, g: nat
      ensures x in Lookup(g0, g) <==> x in m && g in m[x]
    {
      if x in m && g in m[x] {
        assert g in {a, b, c};
      }
    }
  }

  lemma ThreeRowPairs(a: nat, b: nat, c: nat)
    ensures CollectPairsAsWritten(ThreeRowIds(a, b, c), [0, 1, 2]) == [(c, b), (c, b), (c, a), (c, b)]
  {
    var m := ThreeRowIds(a, b, c);
    assert RowPairsAsWritten(m[0]) == [(c, b), (c, b)];
    assert CollectPairsAsWritten(m, [2]) == [(c, b)];
    assert CollectPairsAsWritten(m, [1, 2]) == [(c, a), (c, b)];
  }

  lemma ThreeRowMerge(a: nat, b: nat, c: nat)
    requires a != b && b != c && a != c
    ensures MergeAsWritten(ThreeRowGroups(a, b, c), map[], [(c, b), (c, b), (c, a), (c, b)]) == Crashed
  {
    var g0 := ThreeRowGroups(a, b, c);
    var g1 := g0[c := g0[c] + g0[b]] - {b};
    assert g1.Keys == {a, c};
    var g2 := g1[c := g1[c] + g1[c]] - {c};
    assert g2.Keys == {a};
    assert MergeAsWritten(g2, map[b := c, c := c], [(c, a), (c, b)]) == Crashed;
    assert MergeAsWritten(g1, map[b := c], [(c, b), (c, a), (c, b)]) == Crashed;
  }

  /**
   * Whatever ids the three conditions get, the second copy of (c, b) merges
   * group c into itself and removes it, and the next pair looks c up again
   * and dereferences `null`.
   */
  lemma ThreeRowScenarioCrashes(a: nat, b: nat, c: nat)
    requires a != b && b != c && a != c
    ensures IsReverseMap(ThreeRowIds(a, b, c), ThreeRowGroups(a, b, c))
    ensures CollectPairsAsWritten(ThreeRowIds(a, b, c), [0, 1, 2]) == [(c, b), (c, b), (c, a), (c, b)]
    ensures MergeAsWritten(ThreeRowGroups(a, b, c), map[], [(c, b), (c, b), (c, a), (c, b)]) == Crashed
  {
    ThreeRowReverseMap(a, b, c);
    ThreeRowPairs(a, b, c);
    ThreeRowMerge(a, b, c);
  }
}
