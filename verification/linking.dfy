/**
 * The relation the consolidation must compute: two rows are linked when a
 * chain of rows joins them, each adjacent pair of the chain carrying a common
 * group id.
 */
module Linking {

  /** `mapStringToGroups`: row index to the group ids that row produced, in column order. */
  type RowToIds = map<nat, seq<nat>>

  /** Rows `x` and `y` both appear in `m` and carry a common group id. */
  ghost predicate ShareId(m: RowToIds, x: nat, y: nat)
  {
    x in m && y in m && exists g :: g in m[x] && g in m[y]
  }

  /** A non-empty sequence of listed rows in which neighbours share an id. */
  ghost predicate IsChain(m: RowToIds, ch: seq<nat>)
  {
    && |ch| >= 1
    && (forall k :: 0 <= k < |ch| ==> ch[k] in m)
    && (forall k :: 0 <= k < |ch| - 1 ==> ShareId(m, ch[k], ch[k + 1]))
  }

  ghost predicate Linked(m: RowToIds, x: nat, y: nat)
  {
    exists ch :: IsChain(m, ch) && ch[0] == x && ch[|ch| - 1] == y
  }

  lemma LinkedRefl(m: RowToIds, x: nat)
    requires x in m
    ensures Linked(m, x, x)
  {
    assert IsChain(m, [x]);
  }

  lemma LinkedStep(m: RowToIds, x: nat, y: nat)
    requires ShareId(m, x, y)
    ensures Linked(m, x, y)
  {
    assert IsChain(m, [x, y]);
  }

  /** Linked rows are listed rows. */
  lemma LinkedEnds(m: RowToIds, x: nat, y: nat)
    requires Linked(m, x, y)
    ensures x in m && y in m
  {
    var ch :| IsChain(m, ch) && ch[0] == x && ch[|ch| - 1] == y;
  }

  /** Chains glue at a common end. */
  lemma LinkedTrans(m: RowToIds, x: nat, y: nat, z: nat)
    requires Linked(m, x, y) && Linked(m, y, z)
    ensures Linked(m, x, z)
  {
    var c1 :| IsChain(m, c1) && c1[0] == x && c1[|c1| - 1] == y;
    var c2 :| IsChain(m, c2) && c2[0] == y && c2[|c2| - 1] == z;
    var ch := c1 + c2[1..];
    forall k | 0 <= k < |ch| - 1
      ensures ShareId(m, ch[k], ch[k + 1])
    {
      if k < |c1| - 1 {
        assert ch[k] == c1[k] && ch[k + 1] == c1[k + 1];
      } else {
        var k2 := k - |c1| + 1;
        assert ch[k] == c2[k2] && ch[k + 1] == c2[k2 + 1];
      }
    }
    assert IsChain(m, ch);
    assert ch[|ch| - 1] == z;
  }

  /** Chains read backwards are chains. */
  lemma LinkedSym(m: RowToIds, x: nat, y: nat)
    requires Linked(m, x, y)
    ensures Linked(m, y, x)
  {
    var ch :| IsChain(m, ch) && ch[0] == x && ch[|ch| - 1] == y;
    var rev := seq(|ch|, k requires 0 <= k < |ch| => ch[|ch| - 1 - k]);
    forall k | 0 <= k < |rev| - 1
      ensures ShareId(m, rev[k], rev[k + 1])
    {
      var k' := |ch| - 2 - k;
      assert ShareId(m, ch[k'], ch[k' + 1]);
      var g :| g in m[ch[k']] && g in m[ch[k' + 1]];
    }
    assert IsChain(m, rev);
  }

  /**
   * Two row-to-ids maps that list the same rows and agree on which rows share
   * an id link exactly the same rows: a chain of one is a chain of the other.
   */
  lemma LinkedTransfer(m1: RowToIds, m2: RowToIds, x: nat, y: nat)
    requires m1.Keys == m2.Keys
    requires forall a, b :: ShareId(m1, a, b) <==> ShareId(m2, a, b)
    ensures Linked(m1, x, y) <==> Linked(m2, x, y)
  {
    if Linked(m1, x, y) {
      var ch :| IsChain(m1, ch) && ch[0] == x && ch[|ch| - 1] == y;
      assert IsChain(m2, ch);
    }
    if Linked(m2, x, y) {
      var ch :| IsChain(m2, ch) && ch[0] == x && ch[|ch| - 1] == y;
      assert IsChain(m1, ch);
    }
  }
}
