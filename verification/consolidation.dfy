/**
 * Group consolidation (`mergeGroups`), as its doc comment describes it: when
 * a row belongs to several groups those groups are merged, and merges chain
 * transitively.
 *
 * This module models the intended behaviour, and departs from the code as
 * written in three deliberate places (each shown against the code in module
 * AsWritten):
 *  - every consecutive pair (ids[i-1], ids[i]) of a row is enqueued, where
 *    the code enqueues (last, second-to-last) once per iteration;
 *  - the root of an id is a single lookup in a flat representative map that
 *    is kept up to date, where the code follows at most one parent link;
 *  - a pair whose two roots coincide is skipped, where the code merges the
 *    group with itself and then removes it.
 */
module Consolidation {
  import opened Collections
  import opened Linking
  import opened GroupIds

  /** Every enqueued pair consists of two ids that occur together in some row. */
  ghost predicate PairsFromRows(m: RowToIds, pairs: seq<(nat, nat)>)
  {
    forall t :: 0 <= t < |pairs| ==> exists j :: j in m && pairs[t].0 in m[j] && pairs[t].1 in m[j]
  }

  /** Every consecutive pair of every row's id list is enqueued. */
  ghost predicate HasConsecutivePairs(m: RowToIds, pairs: seq<(nat, nat)>)
  {
    forall j, i :: j in m && 1 <= i < |m[j]| ==> (m[j][i - 1], m[j][i]) in pairs
  }

  /** The consecutive pairs of one id list. */
  function ConsecutivePairs(ids: seq<nat>): (ps: seq<(nat, nat)>)
    ensures forall t :: 0 <= t < |ps| ==> ps[t].0 in ids && ps[t].1 in ids
    ensures forall i :: 1 <= i < |ids| ==> (ids[i - 1], ids[i]) in ps
  {
    if |ids| < 2 then []
    else
      var ps := seq(|ids| - 1, t requires 0 <= t < |ids| - 1 => (ids[t], ids[t + 1]));
      assert forall i :: 1 <= i < |ids| ==> ps[i - 1] == (ids[i - 1], ids[i]);
      ps
  }

  /** The first loop of `mergeGroups`: the pair list `groupsToMerge`, rows visited in an unspecified order. */
  method CollectPairs(m: RowToIds) returns (pairs: seq<(nat, nat)>)
    ensures PairsFromRows(m, pairs)
    ensures HasConsecutivePairs(m, pairs)
  {
    pairs := [];
    var rest := m.Keys;
    while rest != {}
      invariant rest <= m.Keys
      invariant PairsFromRows(m, pairs)
      invariant forall j, i :: j in m && j !in rest && 1 <= i < |m[j]| ==> (m[j][i - 1], m[j][i]) in pairs
      decreases rest
    {
      var j :| j in rest;
      var ps := ConsecutivePairs(m[j]);
      forall t | |pairs| <= t < |pairs + ps|
        ensures exists x :: x in m && (pairs + ps)[t].0 in m[x] && (pairs + ps)[t].1 in m[x]
      {
        assert (pairs + ps)[t] == ps[t - |pairs|];
      }
      pairs := pairs + ps;
      rest := rest - {j};
    }
  }

  // ---------------------------------------------------------------------------
  // The partition the consolidation must produce
  // ---------------------------------------------------------------------------

  /** The groups are pairwise disjoint and together hold exactly the listed rows. */
  ghost predicate IsPartitionOf(groups: map<nat, set<nat>>, m: RowToIds)
  {
    && (forall r1, r2 :: r1 in groups && r2 in groups && r1 != r2 ==> groups[r1] !! groups[r2])
    && (forall x :: x in m <==> exists r :: r in groups && x in groups[r])
  }

  /** Each group is the set of rows linked to any one of its members. */
  ghost predicate GroupsAreLinkClasses(groups: map<nat, set<nat>>, m: RowToIds)
  {
    forall r, x, y :: r in groups && x in groups[r] ==> (y in groups[r] <==> Linked(m, x, y))
  }

  // ---------------------------------------------------------------------------
  // Union-find over a flat representative map
  // ---------------------------------------------------------------------------

  /** `rep` is total on the ids, lands on roots, and every root represents itself. */
  ghost predicate RepShape(g0: map<nat, set<nat>>, groups: map<nat, set<nat>>, rep: map<nat, nat>)
  {
    && rep.Keys == g0.Keys
    && (forall g :: g in rep ==> rep[g] in groups)
    && (forall r :: r in groups ==> r in rep && rep[r] == r)
  }

  /** A root's group holds exactly the initial groups of the ids it represents. */
  ghost predicate GroupContents(g0: map<nat, set<nat>>, groups: map<nat, set<nat>>, rep: map<nat, nat>)
  {
    forall r, x :: r in groups ==> (x in groups[r] <==> exists g :: g in g0 && g in rep && rep[g] == r && x in g0[g])
  }

  /** The first `t` pairs have one root each. */
  ghost predicate PairsJoined(pairs: seq<(nat, nat)>, t: nat, rep: map<nat, nat>)
  {
    && t <= |pairs|
    && (forall k :: 0 <= k < t ==> pairs[k].0 in rep && pairs[k].1 in rep && rep[pairs[k].0] == rep[pairs[k].1])
  }

  /** The rows of one group are pairwise linked. */
  ghost predicate GroupsLinked(m: RowToIds, groups: map<nat, set<nat>>)
  {
    forall r, x, y :: r in groups && x in groups[r] && y in groups[r] ==> Linked(m, x, y)
  }

  /** The state of the consolidation loop after the first `t` pairs. */
  ghost predicate UnionFindInv(m: RowToIds, g0: map<nat, set<nat>>, pairs: seq<(nat, nat)>, t: nat,
                               groups: map<nat, set<nat>>, rep: map<nat, nat>)
  {
    RepShape(g0, groups, rep) && GroupContents(g0, groups, rep) && PairsJoined(pairs, t, rep) && GroupsLinked(m, groups)
  }

  /** The group of root `rb` moves into that of root `ra`. */
  function Absorb(groups: map<nat, set<nat>>, ra: nat, rb: nat): map<nat, set<nat>>
    requires ra in groups && rb in groups
  {
    groups[ra := groups[ra] + groups[rb]] - {rb}
  }

  /** Every id represented by `rb` is now represented by `ra`. */
  function Redirect(rep: map<nat, nat>, ra: nat, rb: nat): map<nat, nat>
  {
    map g | g in rep :: if rep[g] == rb then ra else rep[g]
  }

  /** Merges the groups of `a` and `b` unless they already have one root. */
  function Union(groups: map<nat, set<nat>>, rep: map<nat, nat>, a: nat, b: nat): (map<nat, set<nat>>, map<nat, nat>)
    requires a in rep && b in rep && rep[a] in groups && rep[b] in groups
  {
    if rep[a] == rep[b] then (groups, rep)
    else (Absorb(groups, rep[a], rep[b]), Redirect(rep, rep[a], rep[b]))
  }

  /** The ids of an enqueued pair are known ids, and some row carries both. */
  lemma PairIdsKnown(m: RowToIds, g0: map<nat, set<nat>>, pairs: seq<(nat, nat)>, t: nat)
    requires IsReverseMap(m, g0)
    requires PairsFromRows(m, pairs)
    requires t < |pairs|
    ensures pairs[t].0 in g0 && pairs[t].1 in g0
    ensures exists j :: j in g0[pairs[t].0] && j in g0[pairs[t].1]
  {
    var (a, b) := pairs[t];
    assert exists j :: j in m && a in m[j] && b in m[j];
    var j :| j in m && a in m[j] && b in m[j];
    assert j in Lookup(g0, a) && j in Lookup(g0, b);
  }

  lemma InitInv(m: RowToIds, g0: map<nat, set<nat>>, pairs: seq<(nat, nat)>)
    requires IsReverseMap(m, g0)
    ensures UnionFindInv(m, g0, pairs, 0, g0, map g | g in g0 :: g)
  {
    var rep := map g | g in g0 :: g;
    forall r, x | r in g0
      ensures x in g0[r] <==> exists g :: g in g0 && g in rep && rep[g] == r && x in g0[g]
    {
      if x in g0[r] {
        assert r in g0 && r in rep && rep[r] == r;
      }
    }
    forall r, x, y | r in g0 && x in g0[r] && y in g0[r]
      ensures Linked(m, x, y)
    {
      assert x in Lookup(g0, r) && y in Lookup(g0, r);
      LinkedStep(m, x, y);
    }
  }

  lemma AbsorbShape(g0: map<nat, set<nat>>, groups: map<nat, set<nat>>, rep: map<nat, nat>, ra: nat, rb: nat)
    requires RepShape(g0, groups, rep)
    requires ra in groups && rb in groups && ra != rb
    ensures RepShape(g0, Absorb(groups, ra, rb), Redirect(rep, ra, rb))
  {
    var groups', rep' := Absorb(groups, ra, rb), Redirect(rep, ra, rb);
    forall r | r in groups' ensures r in rep' && rep'[r] == r {
      assert r in groups && r != rb;
    }
  }

  lemma AbsorbContents(g0: map<nat, set<nat>>, groups: map<nat, set<nat>>, rep: map<nat, nat>, ra: nat, rb: nat)
    requires RepShape(g0, groups, rep) && GroupContents(g0, groups, rep)
    requires ra in groups && rb in groups && ra != rb
    ensures GroupContents(g0, Absorb(groups, ra, rb), Redirect(rep, ra, rb))
  {
    var groups', rep' := Absorb(groups, ra, rb), Redirect(rep, ra, rb);
    forall r, x | r in groups'
      ensures x in groups'[r] <==> exists g :: g in g0 && g in rep' && rep'[g] == r && x in g0[g]
    {
      if r == ra {
        assert groups'[r] == groups[ra] + groups[rb];
        if x in groups[ra] {
          var g :| g in g0 && g in rep && rep[g] == ra && x in g0[g];
          assert rep'[g] == r;
        } else if x in groups[rb] {
          var g :| g in g0 && g in rep && rep[g] == rb && x in g0[g];
          assert rep'[g] == r;
        }
        if exists g :: g in g0 && g in rep' && rep'[g] == r && x in g0[g] {
          var g :| g in g0 && g in rep' && rep'[g] == r && x in g0[g];
          assert rep[g] == ra || rep[g] == rb;
        }
      } else {
        assert r in groups && r != rb && groups'[r] == groups[r];
        if exists g :: g in g0 && g in rep' && rep'[g] == r && x in g0[g] {
          var g :| g in g0 && g in rep' && rep'[g] == r && x in g0[g];
          assert rep[g] == r;
        }
        if x in groups[r] {
          var g :| g in g0 && g in rep && rep[g] == r && x in g0[g];
          assert rep'[g] == r;
        }
      }
    }
  }

  lemma AbsorbPairs(pairs: seq<(nat, nat)>, t: nat, rep: map<nat, nat>, ra: nat, rb: nat)
    requires PairsJoined(pairs, t, rep)
    requires t < |pairs| && pairs[t].0 in rep && pairs[t].1 in rep
    requires rep[pairs[t].0] == ra && rep[pairs[t].1] == rb
    ensures PairsJoined(pairs, t + 1, Redirect(rep, ra, rb))
  {
  }

  lemma AbsorbLinked(m: RowToIds, groups: map<nat, set<nat>>, ra: nat, rb: nat, j: nat)
    requires GroupsLinked(m, groups)
    requires ra in groups && rb in groups && j in groups[ra] && j in groups[rb]
    ensures GroupsLinked(m, Absorb(groups, ra, rb))
  {
    var groups' := Absorb(groups, ra, rb);
    forall r, x, y | r in groups' && x in groups'[r] && y in groups'[r]
      ensures Linked(m, x, y)
    {
      if r == ra && ra != rb {
        if x in groups[ra] && y in groups[rb] {
          LinkedTrans(m, x, j, y);
        } else if x in groups[rb] && y in groups[ra] {
          LinkedTrans(m, x, j, y);
        }
      } else {
        assert r in groups && groups'[r] == groups[r];
      }
    }
  }

  /** Processing pair `t` keeps the invariant. */
  lemma UnionKeepsInv(m: RowToIds, g0: map<nat, set<nat>>, pairs: seq<(nat, nat)>, t: nat,
                      groups: map<nat, set<nat>>, rep: map<nat, nat>)
    requires IsReverseMap(m, g0)
    requires PairsFromRows(m, pairs)
    requires UnionFindInv(m, g0, pairs, t, groups, rep)
    requires t < |pairs|
    ensures pairs[t].0 in rep && pairs[t].1 in rep && rep[pairs[t].0] in groups && rep[pairs[t].1] in groups
    ensures UnionFindInv(m, g0, pairs, t + 1, Union(groups, rep, pairs[t].0, pairs[t].1).0,
                         Union(groups, rep, pairs[t].0, pairs[t].1).1)
  {
    PairIdsKnown(m, g0, pairs, t);
    var (a, b) := pairs[t];
    var ra, rb := rep[a], rep[b];
    if ra != rb {
      var j :| j in g0[a] && j in g0[b];
      assert j in groups[ra] by { assert a in g0 && a in rep && rep[a] == ra && j in g0[a]; }
      assert j in groups[rb] by { assert b in g0 && b in rep && rep[b] == rb && j in g0[b]; }
      AbsorbShape(g0, groups, rep, ra, rb);
      AbsorbContents(g0, groups, rep, ra, rb);
      AbsorbPairs(pairs, t, rep, ra, rb);
      AbsorbLinked(m, groups, ra, rb, j);
    }
  }

  /** Once every pair is processed, all ids of a row have the same root. */
  lemma {:induction false} RootAlongRow(m: RowToIds, g0: map<nat, set<nat>>, pairs: seq<(nat, nat)>,
                                        groups: map<nat, set<nat>>, rep: map<nat, nat>, x: nat, i: nat)
    requires IsReverseMap(m, g0)
    requires HasConsecutivePairs(m, pairs)
    requires UnionFindInv(m, g0, pairs, |pairs|, groups, rep)
    requires x in m && i < |m[x]|
    ensures m[x][i] in rep && m[x][0] in rep && rep[m[x][i]] == rep[m[x][0]]
  {
    assert x in Lookup(g0, m[x][i]) && x in Lookup(g0, m[x][0]);
    if i > 0 {
      RootAlongRow(m, g0, pairs, groups, rep, x, i - 1);
      var k :| 0 <= k < |pairs| && pairs[k] == (m[x][i - 1], m[x][i]);
    }
  }

  /** A row lies in the group of root `r` exactly when one of its ids has root `r`. */
  lemma RowInGroup(m: RowToIds, g0: map<nat, set<nat>>, pairs: seq<(nat, nat)>, t: nat,
                   groups: map<nat, set<nat>>, rep: map<nat, nat>, r: nat, x: nat)
    requires IsReverseMap(m, g0)
    requires UnionFindInv(m, g0, pairs, t, groups, rep)
    requires r in groups
    ensures x in groups[r] <==> x in m && exists g :: g in m[x] && g in rep && rep[g] == r
  {
    if x in groups[r] {
      var g :| g in g0 && g in rep && rep[g] == r && x in g0[g];
      assert x in Lookup(g0, g);
    }
    if x in m && exists g :: g in m[x] && g in rep && rep[g] == r {
      var g :| g in m[x] && g in rep && rep[g] == r;
      assert x in Lookup(g0, g);
      assert g in g0 && x in g0[g];
    }
  }

  /** Following a chain never leaves the group of its first row. */
  lemma {:induction false} ChainStaysInGroup(m: RowToIds, g0: map<nat, set<nat>>, pairs: seq<(nat, nat)>,
                                             groups: map<nat, set<nat>>, rep: map<nat, nat>, r: nat, ch: seq<nat>)
    requires IsReverseMap(m, g0)
    requires HasConsecutivePairs(m, pairs)
    requires UnionFindInv(m, g0, pairs, |pairs|, groups, rep)
    requires r in groups
    requires IsChain(m, ch) && ch[0] in groups[r]
    ensures ch[|ch| - 1] in groups[r]
  {
    if |ch| > 1 {
      var init := ch[..|ch| - 1];
      assert IsChain(m, init);
      ChainStaysInGroup(m, g0, pairs, groups, rep, r, init);
      var x, y := ch[|ch| - 2], ch[|ch| - 1];
      assert x in groups[r];
      assert ShareId(m, x, y);
      var g :| g in m[x] && g in m[y];
      RowInGroup(m, g0, pairs, |pairs|, groups, rep, r, x);
      var g' :| g' in m[x] && g' in rep && rep[g'] == r;
      var i :| 0 <= i < |m[x]| && m[x][i] == g;
      var i' :| 0 <= i' < |m[x]| && m[x][i'] == g';
      RootAlongRow(m, g0, pairs, groups, rep, x, i);
      RootAlongRow(m, g0, pairs, groups, rep, x, i');
      RowInGroup(m, g0, pairs, |pairs|, groups, rep, r, y);
    }
  }

  /** The final state is the partition into link classes. */
  lemma FinalPartition(m: RowToIds, g0: map<nat, set<nat>>, pairs: seq<(nat, nat)>,
                       groups: map<nat, set<nat>>, rep: map<nat, nat>)
    requires forall j :: j in m ==> m[j] != []
    requires IsReverseMap(m, g0)
    requires HasConsecutivePairs(m, pairs)
    requires UnionFindInv(m, g0, pairs, |pairs|, groups, rep)
    ensures IsPartitionOf(groups, m)
    ensures GroupsAreLinkClasses(groups, m)
  {
    forall r1, r2 | r1 in groups && r2 in groups && r1 != r2
      ensures groups[r1] !! groups[r2]
    {
      if x :| x in groups[r1] && x in groups[r2] {
        RowInGroup(m, g0, pairs, |pairs|, groups, rep, r1, x);
        RowInGroup(m, g0, pairs, |pairs|, groups, rep, r2, x);
        var g1 :| g1 in m[x] && g1 in rep && rep[g1] == r1;
        var g2 :| g2 in m[x] && g2 in rep && rep[g2] == r2;
        var i1 :| 0 <= i1 < |m[x]| && m[x][i1] == g1;
        var i2 :| 0 <= i2 < |m[x]| && m[x][i2] == g2;
        RootAlongRow(m, g0, pairs, groups, rep, x, i1);
        RootAlongRow(m, g0, pairs, groups, rep, x, i2);
      }
    }
    forall x
      ensures x in m <==> exists r :: r in groups && x in groups[r]
    {
      if x in m {
        var g := m[x][0];
        assert x in Lookup(g0, g);
        assert g in rep;
        RowInGroup(m, g0, pairs, |pairs|, groups, rep, rep[g], x);
      }
      if exists r :: r in groups && x in groups[r] {
        var r :| r in groups && x in groups[r];
        RowInGroup(m, g0, pairs, |pairs|, groups, rep, r, x);
      }
    }
    forall r, x, y | r in groups && x in groups[r]
      ensures y in groups[r] <==> Linked(m, x, y)
    {
      if Linked(m, x, y) {
        var ch :| IsChain(m, ch) && ch[0] == x && ch[|ch| - 1] == y;
        ChainStaysInGroup(m, g0, pairs, groups, rep, r, ch);
      }
    }
  }

  /**
   * The second loop of `mergeGroups`, as intended: processes the pairs in
   * order with a flat representative map, and yields the partition of the
   * listed rows into link classes.
   */
  method Consolidate(m: RowToIds, g0: map<nat, set<nat>>, pairs: seq<(nat, nat)>)
    returns (groups: map<nat, set<nat>>)
    requires forall j :: j in m ==> m[j] != []
    requires IsReverseMap(m, g0)
    requires PairsFromRows(m, pairs)
    requires HasConsecutivePairs(m, pairs)
    ensures IsPartitionOf(groups, m)
    ensures GroupsAreLinkClasses(groups, m)
    ensures forall r :: r in groups ==> r in g0 && g0[r] <= groups[r]
  {
    groups := g0;
    var rep: map<nat, nat> := map g | g in g0 :: g;
    InitInv(m, g0, pairs);
    var t := 0;
    while t < |pairs|
      invariant UnionFindInv(m, g0, pairs, t, groups, rep)
    {
      UnionKeepsInv(m, g0, pairs, t, groups, rep);
      var u := Union(groups, rep, pairs[t].0, pairs[t].1);
      groups, rep := u.0, u.1;
      t := t + 1;
    }
    FinalPartition(m, g0, pairs, groups, rep);
    forall r, x | r in groups && r in g0 && x in g0[r]
      ensures x in groups[r]
    {
      assert r in rep && rep[r] == r;
    }
  }

  /** `mergeGroups` as intended: collect the pairs, then consolidate. */
  method MergeGroups(m: RowToIds, g0: map<nat, set<nat>>) returns (groups: map<nat, set<nat>>)
    requires forall j :: j in m ==> m[j] != []
    requires IsReverseMap(m, g0)
    ensures IsPartitionOf(groups, m)
    ensures GroupsAreLinkClasses(groups, m)
    ensures forall r :: r in groups ==> r in g0 && g0[r] <= groups[r]
  {
    var pairs := CollectPairs(m);
    groups := Consolidate(m, g0, pairs);
  }
}
